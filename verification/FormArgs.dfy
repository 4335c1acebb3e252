/** Form arguments: counting, splitting and percent-decoding (Parsing.cpp). */
module FormArgs {
  import opened Text

  // ---------------------------------------------------------------- urlDecode

  function HexDigit(c: char): (d: int)
    ensures -1 <= d < 16
  {
    if '0' <= c <= '9' then c as int - '0' as int
    else if 'a' <= c <= 'f' then c as int - 'a' as int + 10
    else if 'A' <= c <= 'F' then c as int - 'A' as int + 10
    else -1
  }

  /** strtol of "0x" and two characters: the digits up to the first that is not one. */
  function Strtol(a: char, b: char): char {
    if HexDigit(a) < 0 then '\0'
    else if HexDigit(b) < 0 then HexDigit(a) as char
    else (16 * HexDigit(a) + HexDigit(b)) as char
  }

  /** What decoding makes of a text from position i on. */
  function DecodeFrom(t: string, i: nat): string
    decreases |t| - i
  {
    if i >= |t| then ""
    else if t[i] == '%' && i + 2 < |t| then [Strtol(t[i + 1], t[i + 2])] + DecodeFrom(t, i + 3)
    else [if t[i] == '+' then ' ' else t[i]] + DecodeFrom(t, i + 1)
  }

  function UrlDecode(t: string): string {
    DecodeFrom(t, 0)
  }

  /** The digits of either case, each at the place of its value. */
  const LOWER_DIGITS := "0123456789abcdef"
  const UPPER_DIGITS := "0123456789ABCDEF"

  predicate DigitOf(c: char, d: nat) {
    d < 16 && (LOWER_DIGITS[d] == c || UPPER_DIGITS[d] == c)
  }

  /** A character is read as d exactly when it is the digit for d, and as none when it is no digit. */
  lemma HexDigitIs(c: char, d: nat)
    ensures HexDigit(c) == d <==> DigitOf(c, d)
  {}

  lemma PairIs(a: char, b: char, c: char)
    requires DigitOf(a, c as int / 16) && DigitOf(b, c as int % 16)
    ensures Strtol(a, b) == c && !Reserved(a) && !Reserved(b)
  {
    HexDigitIs(a, c as int / 16);
    HexDigitIs(b, c as int % 16);
  }

  /** A pair of digits in any mix of cases decodes to its byte; a pair that does not begin with a digit
      to the null character, and one with a single digit to that digit. */
  lemma EscapeDecodes(a: char, b: char)
    ensures forall n: nat | n < 256 && DigitOf(a, n / 16) && DigitOf(b, n % 16) :: UrlDecode(['%', a, b]) == [n as char]
    ensures (forall d: nat :: !DigitOf(a, d)) ==> UrlDecode(['%', a, b]) == ['\0']
    ensures forall d: nat | DigitOf(a, d) && (forall m: nat :: !DigitOf(b, m)) :: UrlDecode(['%', a, b]) == [d as char]
  {
    assert DecodeFrom(['%', a, b], 3) == "";
    NoDigit(a);
    NoDigit(b);
    forall d: nat ensures HexDigit(a) == d <==> DigitOf(a, d) {
      HexDigitIs(a, d);
    }
    forall d: nat ensures HexDigit(b) == d <==> DigitOf(b, d) {
      HexDigitIs(b, d);
    }
  }

  lemma NoDigit(c: char)
    ensures (forall d: nat :: !DigitOf(c, d)) <==> HexDigit(c) < 0
  {
    if HexDigit(c) >= 0 {
      HexDigitIs(c, HexDigit(c));
    }
    forall d: nat | DigitOf(c, d) ensures HexDigit(c) >= 0 {
      HexDigitIs(c, d);
    }
  }

  /** Characters with a meaning of their own in a form. */
  predicate Reserved(c: char) {
    c == '%' || c == '+' || c == '&' || c == '='
  }

  /** Whether e, from position i on, is some percent-encoding of s: each character is itself unless it
      is reserved, a plus for a blank, or a percent sign with two hexadecimal digits of either case. */
  predicate Encodes(e: string, i: nat, s: string)
    decreases |s|
  {
    if s == "" then i == |e|
    else if i >= |e| then false
    else if e[i] == '%' then
      i + 2 < |e| && DigitOf(e[i + 1], s[0] as int / 16) && DigitOf(e[i + 2], s[0] as int % 16)
      && Encodes(e, i + 3, s[1..])
    else
      (if e[i] == '+' then s[0] == ' ' else e[i] == s[0] && !Reserved(e[i])) && Encodes(e, i + 1, s[1..])
  }

  /** Decoding undoes every encoding. */
  lemma {:induction false} DecodeEncoded(e: string, i: nat, s: string)
    requires Encodes(e, i, s)
    ensures DecodeFrom(e, i) == s
    decreases |s|
  {
    if s != "" {
      if e[i] == '%' {
        PairIs(e[i + 1], e[i + 2], s[0]);
        DecodeEncoded(e, i + 3, s[1..]);
      } else {
        DecodeEncoded(e, i + 1, s[1..]);
      }
      assert s == [s[0]] + s[1..];
    }
  }

  /** An encoding contains none of the separators. */
  lemma {:induction false} EncodedFree(e: string, i: nat, s: string)
    requires Encodes(e, i, s)
    ensures i <= |e| && forall j | i <= j < |e| :: e[j] != '&' && e[j] != '='
    decreases |s|
  {
    if s != "" {
      if e[i] == '%' {
        PairIs(e[i + 1], e[i + 2], s[0]);
        EncodedFree(e, i + 3, s[1..]);
      } else {
        EncodedFree(e, i + 1, s[1..]);
      }
    }
  }

  // ---------------------------------------------------------------- splitting

  datatype Argument = Argument(key: string, value: string)

  /** The argument that starts at pos when the next equals sign and ampersand are at eq and next. */
  function ArgumentAt(data: string, pos: nat, eq: int, next: int): Argument
    requires pos <= |data| && (eq == -1 || pos <= eq < |data|) && (next == -1 || pos <= next < |data|)
    requires eq != -1 ==> eq != next
  {
    if eq == -1 || (eq > next && next != -1) then Argument(data[pos..], "")
    else Argument(UrlDecode(data[pos..eq]), UrlDecode(data[eq + 1..if next == -1 then |data| else next]))
  }

  /** The arguments from a position on. */
  function ArgumentsFrom(data: string, pos: nat): seq<Argument>
    requires pos <= |data|
    decreases |data| - pos
  {
    var next := CharFrom(data, '&', pos);
    var arg := ArgumentAt(data, pos, CharFrom(data, '=', pos), next);
    if next == -1 then [arg] else [arg] + ArgumentsFrom(data, next + 1)
  }

  function Arguments(data: string): seq<Argument> {
    if data == "" then [] else ArgumentsFrom(data, 0)
  }

  /** How many ampersands there are from a position on. */
  function Ampersands(data: string, pos: nat): nat
    decreases |data| - pos
  {
    var next := CharFrom(data, '&', pos);
    if next == -1 then 0 else 1 + Ampersands(data, next + 1)
  }

  /** The first pass counts exactly the arguments the second pass fills. */
  lemma {:induction false} CountedIsFilled(data: string, pos: nat)
    requires pos <= |data|
    ensures |ArgumentsFrom(data, pos)| == 1 + Ampersands(data, pos)
    decreases |data| - pos
  {
    var next := CharFrom(data, '&', pos);
    if next != -1 {
      CountedIsFilled(data, next + 1);
    }
  }

  /** Encoded arguments, joined. */
  function Form(es: seq<Argument>): string {
    if es == [] then ""
    else if |es| == 1 then es[0].key + ['='] + es[0].value
    else es[0].key + ['='] + es[0].value + ['&'] + Form(es[1..])
  }

  predicate EncodesAll(es: seq<Argument>, args: seq<Argument>) {
    && |es| == |args|
    && forall i | 0 <= i < |es| ::
         Encodes(es[i].key, 0, args[i].key) && Encodes(es[i].value, 0, args[i].value)
  }

  predicate Free(s: string) {
    '&' !in s && '=' !in s
  }

  lemma EncodedArgument(e: string, s: string)
    requires Encodes(e, 0, s)
    ensures Free(e) && UrlDecode(e) == s
  {
    DecodeEncoded(e, 0, s);
    EncodedFree(e, 0, s);
  }

  /** An encoded argument at pos that another one follows. */
  lemma FirstArgument(data: string, pos: nat, k: string, v: string, rest: string, eq: nat, next: nat)
    requires pos <= |data| && data[pos..] == k + ['='] + v + ['&'] + rest && Free(k) && Free(v)
    requires eq == pos + |k| && next == eq + 1 + |v|
    ensures next < |data| && data[next + 1..] == rest
    ensures CharFrom(data, '=', pos) == eq && CharFrom(data, '&', pos) == next
    ensures data[pos..eq] == k && data[eq + 1..next] == v
  {
    assert k + ['='] + v + ['&'] + rest == k + (['='] + (v + (['&'] + rest)));
    PartsAt(data, pos, k, '=', v + (['&'] + rest), eq);
    PartsAt(data, eq + 1, v, '&', rest, next);
    CharFromIs(data, '=', pos, eq);
    assert data[pos..next] == k + ['='] + v;
    CharFromIs(data, '&', pos, next);
  }

  /** An encoded argument at pos that ends the data. */
  lemma LastArgument(data: string, pos: nat, k: string, v: string, eq: nat)
    requires pos <= |data| && data[pos..] == k + ['='] + v && Free(k) && Free(v) && eq == pos + |k|
    ensures CharFrom(data, '=', pos) == eq && CharFrom(data, '&', pos) == -1
    ensures eq < |data| && data[pos..eq] == k && data[eq + 1..] == v
  {
    assert k + ['='] + v == k + (['='] + v);
    PartsAt(data, pos, k, '=', v, eq);
    CharFromIs(data, '=', pos, eq);
    assert '&' !in data[pos..];
    assert forall j | pos <= j < |data| :: data[j] == data[pos..][j - pos];
  }

  lemma ArgumentsCons(data: string, pos: nat, eq: nat, next: nat)
    requires pos <= eq < next < |data| && CharFrom(data, '=', pos) == eq && CharFrom(data, '&', pos) == next
    ensures ArgumentsFrom(data, pos) ==
            [Argument(UrlDecode(data[pos..eq]), UrlDecode(data[eq + 1..next]))] + ArgumentsFrom(data, next + 1)
  {}

  lemma ArgumentsEnd(data: string, pos: nat, eq: nat)
    requires pos <= eq < |data| && CharFrom(data, '=', pos) == eq && CharFrom(data, '&', pos) == -1
    ensures ArgumentsFrom(data, pos) == [Argument(UrlDecode(data[pos..eq]), UrlDecode(data[eq + 1..]))]
  {
    assert data[eq + 1..|data|] == data[eq + 1..];
  }

  lemma ArgumentsMissing(data: string, pos: nat, eq: int, next: nat)
    requires pos <= next < |data| && CharFrom(data, '=', pos) == eq && CharFrom(data, '&', pos) == next
    requires eq == -1 || eq > next
    ensures ArgumentsFrom(data, pos) == [Argument(data[pos..], "")] + ArgumentsFrom(data, next + 1)
  {}

  /** A form of more than one argument. */
  lemma FormFirst(es: seq<Argument>)
    requires |es| > 1
    ensures Form(es) == es[0].key + ['='] + es[0].value + ['&'] + Form(es[1..])
  {}

  lemma OneMore(data: string, pos: nat, eq: nat, next: nat, arg: Argument, rest: seq<Argument>)
    requires pos <= eq < next < |data| && CharFrom(data, '=', pos) == eq && CharFrom(data, '&', pos) == next
    requires UrlDecode(data[pos..eq]) == arg.key && UrlDecode(data[eq + 1..next]) == arg.value
    requires ArgumentsFrom(data, next + 1) == rest
    ensures ArgumentsFrom(data, pos) == [arg] + rest
  {
    ArgumentsCons(data, pos, eq, next);
  }

  lemma EncodedPair(e: Argument, arg: Argument)
    requires Encodes(e.key, 0, arg.key) && Encodes(e.value, 0, arg.value)
    ensures Free(e.key) && Free(e.value) && UrlDecode(e.key) == arg.key && UrlDecode(e.value) == arg.value
  {
    EncodedArgument(e.key, arg.key);
    EncodedArgument(e.value, arg.value);
  }

  predicate Pairs(es: seq<Argument>, args: seq<Argument>) {
    && |es| == |args|
    && forall i | 0 <= i < |es| ::
         Free(es[i].key) && Free(es[i].value) && args[i] == Argument(UrlDecode(es[i].key), UrlDecode(es[i].value))
  }

  lemma {:induction false} FormParsed(data: string, pos: nat, es: seq<Argument>, args: seq<Argument>)
    requires pos <= |data| && es != [] && data[pos..] == Form(es) && Pairs(es, args)
    ensures ArgumentsFrom(data, pos) == args
    decreases |es|
  {
    var k, v := es[0].key, es[0].value;
    var eq := pos + |k|;
    if |es| == 1 {
      LastArgument(data, pos, k, v, eq);
      ArgumentsEnd(data, pos, eq);
      assert args == [args[0]];
    } else {
      var next, tail := eq + 1 + |v|, es[1..];
      FormFirst(es);
      FirstArgument(data, pos, k, v, Form(tail), eq, next);
      FormParsed(data, next + 1, tail, args[1..]);
      OneMore(data, pos, eq, next, args[0], args[1..]);
      assert args == [args[0]] + args[1..];
    }
  }

  /** Whatever the encoder, parsing a joined form gives back the arguments. */
  lemma FormRoundTrip(es: seq<Argument>, args: seq<Argument>)
    requires EncodesAll(es, args)
    ensures Arguments(Form(es)) == args
  {
    if es == [] {
      return;
    }
    assert Form(es)[0..] == Form(es);
    forall i | 0 <= i < |es| ensures
        Free(es[i].key) && Free(es[i].value) && args[i] == Argument(UrlDecode(es[i].key), UrlDecode(es[i].value)) {
      EncodedPair(es[i], args[i]);
    }
    FormParsed(Form(es), 0, es, args);
  }

  /** A piece without an equals sign becomes a key that runs to the end of the data, undecoded, and the
      pieces after it are parsed again as arguments of their own. */
  lemma MissingEquals(a: string, b: string)
    requires Free(a) && Free(b)
    ensures Arguments(a + ['&'] + b + ['=']) ==
            [Argument(a + ['&'] + b + ['='], ""), Argument(UrlDecode(b), "")]
  {
    var data := a + ['&'] + b + ['='];
    MissingAt(data, a, b, |a|, |a| + 1 + |b|);
  }

  lemma MissingAt(data: string, a: string, b: string, next: nat, eq: nat)
    requires data == a + ['&'] + b + ['='] && Free(a) && Free(b) && next == |a| && eq == |a| + 1 + |b|
    ensures Arguments(data) == [Argument(data, ""), Argument(UrlDecode(b), "")]
  {
    BeforeEquals(data, a, b, next, eq);
    ArgumentsMissing(data, 0, eq, next);
    LastIs(data, next + 1, b, eq);
    Pair(Argument(data, ""), Argument(UrlDecode(b), ""));
  }

  lemma Pair(a: Argument, b: Argument)
    ensures [a] + [b] == [a, b]
  {}

  lemma BeforeEquals(data: string, a: string, b: string, next: nat, eq: nat)
    requires data == a + ['&'] + b + ['='] && Free(a) && Free(b) && next == |a| && eq == |a| + 1 + |b|
    ensures CharFrom(data, '&', 0) == next && CharFrom(data, '=', 0) == eq
    ensures data[0..] == data && data[next + 1..] == b + ['=']
  {
    assert data[0..next] == a;
    CharFromIs(data, '&', 0, next);
    assert data[0..eq] == a + ['&'] + b;
    CharFromIs(data, '=', 0, eq);
  }

  lemma LastIs(data: string, pos: nat, k: string, eq: nat)
    requires pos <= |data| && data[pos..] == k + ['='] && Free(k) && eq == pos + |k|
    ensures ArgumentsFrom(data, pos) == [Argument(UrlDecode(k), "")]
  {
    assert k + ['='] + "" == k + ['='];
    LastArgument(data, pos, k, "", eq);
    ArgumentsEnd(data, pos, eq);
    assert UrlDecode("") == "";
  }

  // ---------------------------------------------------------------- piece by piece

  /** A piece on its own: split at its first equals sign and decoded. */
  function PieceArgument(piece: string): Argument {
    var eq := CharFrom(piece, '=', 0);
    if eq == -1 then Argument(UrlDecode(piece), "")
    else Argument(UrlDecode(piece[..eq]), UrlDecode(piece[eq + 1..]))
  }

  /** Where the piece at pos ends. */
  function PieceEnd(data: string, pos: nat): (e: nat)
    requires pos <= |data|
    ensures pos <= e <= |data|
  {
    var next := CharFrom(data, '&', pos);
    if next == -1 then |data| else next
  }

  /** Every piece between ampersands parsed on its own. */
  function Piecewise(data: string, pos: nat): seq<Argument>
    requires pos <= |data|
    decreases |data| - pos
  {
    var e := PieceEnd(data, pos);
    var arg := PieceArgument(data[pos..e]);
    if e == |data| then [arg] else [arg] + Piecewise(data, e + 1)
  }

  /** The piece from pos to e has an equals sign. */
  predicate HasEquals(data: string, pos: nat, e: nat) {
    var eq := CharFrom(data, '=', pos);
    eq != -1 && eq < e
  }

  /** From i on there is nothing to decode: no plus sign, and no percent sign with two characters after it. */
  predicate Literal(t: string, i: nat) {
    forall j | i <= j < |t| :: t[j] != '+' && (t[j] == '%' ==> j + 2 >= |t|)
  }

  lemma LiteralNext(t: string, i: nat)
    requires i < |t|
    ensures Literal(t, i) <==> t[i] != '+' && (t[i] == '%' ==> i + 2 >= |t|) && Literal(t, i + 1)
  {}

  /** Just these texts decode to themselves. */
  lemma {:induction false} LiteralIff(t: string, i: nat)
    requires i <= |t|
    ensures DecodeFrom(t, i) == t[i..] <==> Literal(t, i)
    decreases |t| - i
  {
    if i < |t| {
      LiteralNext(t, i);
      if t[i] == '%' && i + 2 < |t| {
        DecodeShrinks(t, i);
        DecodeShrinks(t, i + 3);
      } else {
        var c := if t[i] == '+' then ' ' else t[i];
        LiteralIff(t, i + 1);
        assert t[i..] == [t[i]] + t[i + 1..];
        assert ([c] + DecodeFrom(t, i + 1))[1..] == DecodeFrom(t, i + 1) && t[i..][1..] == t[i + 1..];
      }
    }
  }

  /** Every piece has an equals sign, except that the last may instead have nothing to decode. */
  predicate EveryPieceSplits(data: string, pos: nat)
    requires pos <= |data|
    decreases |data| - pos
  {
    var e := PieceEnd(data, pos);
    if e == |data| then HasEquals(data, pos, e) || Literal(data[pos..], 0)
    else HasEquals(data, pos, e) && EveryPieceSplits(data, e + 1)
  }

  lemma {:induction false} DecodeShrinks(t: string, i: nat)
    requires i <= |t|
    ensures |DecodeFrom(t, i)| <= |t| - i
    decreases |t| - i
  {
    if i < |t| {
      if t[i] == '%' && i + 2 < |t| {
        DecodeShrinks(t, i + 3);
      } else {
        DecodeShrinks(t, i + 1);
      }
    }
  }

  /** An equals sign found inside the piece splits the piece. */
  lemma SplitPiece(data: string, pos: nat, eq: nat, e: nat)
    requires pos <= eq < e <= |data| && CharFrom(data, '=', pos) == eq
    ensures PieceArgument(data[pos..e]) == Argument(UrlDecode(data[pos..eq]), UrlDecode(data[eq + 1..e]))
  {
    var piece := data[pos..e];
    assert piece[0..eq - pos] == data[pos..eq] && piece[eq - pos + 1..] == data[eq + 1..e];
    CharFromIs(piece, '=', 0, eq - pos);
  }

  lemma WholePiece(piece: string)
    requires '=' !in piece
    ensures PieceArgument(piece) == Argument(UrlDecode(piece), "")
  {
    assert CharFrom(piece, '=', 0) == -1;
  }

  lemma EqualsInside(data: string, pos: nat, e: nat)
    requires pos <= e <= |data|
    ensures HasEquals(data, pos, e) <==> '=' in data[pos..e]
  {
    var eq := CharFrom(data, '=', pos);
    if eq != -1 && eq < e {
      assert data[pos..e][eq - pos] == '=';
    }
    if '=' in data[pos..e] {
      var j :| 0 <= j < e - pos && data[pos..e][j] == '=';
      FirstNotAfter(data, pos, pos + j);
    }
  }

  lemma {:induction false} FirstNotAfter(data: string, pos: nat, j: nat)
    requires pos <= j < |data| && data[j] == '='
    ensures 0 <= CharFrom(data, '=', pos) <= j
    decreases j - pos
  {
    if pos < j {
      FirstNotAfter(data, pos + 1, j);
    }
  }

  predicate PiecewiseAt(data: string, pos: nat)
    requires pos <= |data|
  {
    ArgumentsFrom(data, pos) == Piecewise(data, pos) <==> EveryPieceSplits(data, pos)
  }

  /** What the filling pass does with the last piece. */
  lemma LastPiece(data: string, pos: nat)
    requires pos <= |data| && PieceEnd(data, pos) == |data|
    ensures PiecewiseAt(data, pos)
  {
    var eq := CharFrom(data, '=', pos);
    assert data[pos..|data|] == data[pos..];
    EqualsInside(data, pos, |data|);
    if eq != -1 {
      SplitPiece(data, pos, eq, |data|);
      ArgumentsEnd(data, pos, eq);
      assert data[eq + 1..|data|] == data[eq + 1..];
    } else {
      WholePiece(data[pos..]);
      LiteralIff(data[pos..], 0);
      assert ArgumentsFrom(data, pos) == [Argument(data[pos..], "")];
    }
  }

  lemma Heads(a: Argument, b: Argument, s: seq<Argument>, t: seq<Argument>)
    ensures [a] + s == [b] + t <==> a == b && s == t
  {
    if [a] + s == [b] + t {
      assert ([a] + s)[0] == a && ([b] + t)[0] == b;
      assert ([a] + s)[1..] == s && ([b] + t)[1..] == t;
    }
  }

  /** The first of several pieces is parsed on its own exactly when it has an equals sign. */
  lemma FirstPiece(data: string, pos: nat, next: nat)
    requires pos <= next < |data| && CharFrom(data, '&', pos) == next
    ensures ArgumentAt(data, pos, CharFrom(data, '=', pos), next) == PieceArgument(data[pos..next])
            <==> HasEquals(data, pos, next)
  {
    var eq := CharFrom(data, '=', pos);
    EqualsInside(data, pos, next);
    if eq != -1 && eq < next {
      SplitPiece(data, pos, eq, next);
    } else {
      WholePiece(data[pos..next]);
      DecodeShrinks(data[pos..next], 0);
    }
  }

  lemma NextIs(data: string, pos: nat, e: nat)
    requires pos <= |data| && e == PieceEnd(data, pos) < |data|
    ensures CharFrom(data, '&', pos) == e
  {}

  lemma MoreArguments(data: string, pos: nat, eq: int, next: nat, arg: Argument)
    requires pos <= next < |data| && eq == CharFrom(data, '=', pos) && CharFrom(data, '&', pos) == next
    requires arg == ArgumentAt(data, pos, eq, next)
    ensures ArgumentsFrom(data, pos) == [arg] + ArgumentsFrom(data, next + 1)
  {}

  lemma MorePieces(data: string, pos: nat, e: nat)
    requires pos <= |data| && e == PieceEnd(data, pos) < |data|
    ensures Piecewise(data, pos) == [PieceArgument(data[pos..e])] + Piecewise(data, e + 1)
  {}

  lemma MoreSplits(data: string, pos: nat, e: nat)
    requires pos <= |data| && e == PieceEnd(data, pos) < |data|
    ensures EveryPieceSplits(data, pos) <==> HasEquals(data, pos, e) && EveryPieceSplits(data, e + 1)
  {}

  lemma {:induction false} PiecewiseFrom(data: string, pos: nat)
    requires pos <= |data|
    ensures PiecewiseAt(data, pos)
    decreases |data| - pos
  {
    var e := PieceEnd(data, pos);
    if e == |data| {
      LastPiece(data, pos);
    } else {
      PiecewiseFrom(data, e + 1);
      PiecewiseMore(data, pos, e);
    }
  }

  lemma PiecewiseMore(data: string, pos: nat, e: nat)
    requires pos <= |data| && e == PieceEnd(data, pos) < |data|
    requires PiecewiseAt(data, e + 1)
    ensures PiecewiseAt(data, pos)
  {
    var eq := CharFrom(data, '=', pos);
    NextIs(data, pos, e);
    MoreArguments(data, pos, eq, e, ArgumentAt(data, pos, eq, e));
    MorePieces(data, pos, e);
    MoreSplits(data, pos, e);
    FirstPiece(data, pos, e);
    Heads(ArgumentAt(data, pos, eq, e), PieceArgument(data[pos..e]),
          ArgumentsFrom(data, e + 1), Piecewise(data, e + 1));
  }

  /** Parsing is piecewise parsing exactly when every piece but the last has an equals sign, and the last
      has one or has neither a plus sign nor a percent sign with two characters after it. */
  lemma PiecewiseIff(data: string)
    requires data != ""
    ensures Arguments(data) == Piecewise(data, 0) <==> EveryPieceSplits(data, 0)
  {
    PiecewiseFrom(data, 0);
  }

  // ---------------------------------------------------------------- the server's fields

  /** The decoding loop stands at i with `done` decoded. */
  predicate Decoding(text: string, i: nat, done: string) {
    UrlDecode(text) == done + DecodeFrom(text, i)
  }

  lemma DecodingStep(text: string, i: nat, done: string, c: char, next: nat)
    requires Decoding(text, i, done) && i < |text|
    requires if text[i] == '%' && i + 2 < |text| then c == Strtol(text[i + 1], text[i + 2]) && next == i + 3
             else c == (if text[i] == '+' then ' ' else text[i]) && next == i + 1
    ensures Decoding(text, next, done + [c])
  {
    assert done + ([c] + DecodeFrom(text, next)) == done + [c] + DecodeFrom(text, next);
  }

  /** The filling loop stands at pos with `done` filled; it is over when `more` is false. */
  predicate Filling(data: string, pos: nat, done: seq<Argument>, more: bool) {
    pos <= |data| && Arguments(data) == if more then done + ArgumentsFrom(data, pos) else done
  }

  lemma FillingStep(data: string, pos: nat, done: seq<Argument>, eq: int, next: int, arg: Argument)
    requires Filling(data, pos, done, true)
    requires eq == CharFrom(data, '=', pos) && next == CharFrom(data, '&', pos)
    requires arg == ArgumentAt(data, pos, eq, next)
    ensures next == -1 ==> Filling(data, pos, done + [arg], false)
    ensures next != -1 ==> Filling(data, next + 1, done + [arg], true)
  {
    if next == -1 {
      assert ArgumentsFrom(data, pos) == [arg];
    } else {
      Regroup(done, arg, ArgumentsFrom(data, next + 1), ArgumentsFrom(data, pos));
    }
  }

  lemma Regroup(done: seq<Argument>, arg: Argument, rest: seq<Argument>, all: seq<Argument>)
    requires all == [arg] + rest
    ensures done + all == done + [arg] + rest
  {}

  /** While there is more, there is a counted slot to fill, and none is left when there is not. */
  lemma SlotLeft(data: string, pos: nat, done: seq<Argument>, more: bool)
    requires data != "" && Filling(data, pos, done, more)
    ensures if more then |done| < 1 + Ampersands(data, 0) else |done| == 1 + Ampersands(data, 0)
  {
    CountedIsFilled(data, 0);
    CountedIsFilled(data, pos);
  }

  class WebServer {
    var currentArgs: array<Argument>
    var currentArgCount: nat

    constructor ()
      ensures currentArgCount == 0 && fresh(currentArgs)
    {
      currentArgs := new Argument[1](_ => Argument("", ""));
      currentArgCount := 0;
    }

    method Decode(text: string) returns (decoded: string)
      ensures decoded == UrlDecode(text)
    {
      decoded := "";
      var len, i := |text|, 0;
      while i < len
        invariant 0 <= i <= len && Decoding(text, i, decoded)
      {
        ghost var at, done := i, decoded;
        var encodedChar := text[i];
        var decodedChar;
        i := i + 1;
        if encodedChar == '%' && i + 1 < len {
          decodedChar := Strtol(text[i], text[i + 1]);
          i := i + 2;
        } else if encodedChar == '+' {
          decodedChar := ' ';
        } else {
          decodedChar := encodedChar;
        }
        decoded := decoded + [decodedChar];
        DecodingStep(text, at, done, decodedChar, i);
      }
    }

    method CountArguments(data: string) returns (count: nat)
      requires data != ""
      ensures count == 1 + Ampersands(data, 0)
    {
      count := 1;
      var i := 0;
      while i < |data|
        invariant 0 <= i <= |data| && 1 + Ampersands(data, 0) == count + Ampersands(data, i)
      {
        i := CharFrom(data, '&', i);
        if i == -1 {
          break;
        }
        i := i + 1;
        count := count + 1;
      }
    }

    method ParseArgument(data: string, pos: nat, eq: int, next: int) returns (arg: Argument)
      requires pos <= |data| && eq == CharFrom(data, '=', pos) && next == CharFrom(data, '&', pos)
      ensures arg == ArgumentAt(data, pos, eq, next)
    {
      if eq == -1 || (eq > next && next != -1) {
        return Argument(data[pos..], "");
      }
      var key := Decode(data[pos..eq]);
      var value := Decode(data[eq + 1..if next == -1 then |data| else next]);
      return Argument(key, value);
    }

    /** One round of the filling pass: the argument at pos goes into the next slot. */
    method FillSlot(args: array<Argument>, iarg: nat, data: string, pos: nat) returns (next: int)
      requires iarg < args.Length && Filling(data, pos, args[..iarg], true)
      modifies args
      ensures next == -1 || pos <= next < |data|
      ensures next == -1 ==> Filling(data, pos, args[..iarg + 1], false)
      ensures next != -1 ==> Filling(data, next + 1, args[..iarg + 1], true)
    {
      var eq := CharFrom(data, '=', pos);
      next := CharFrom(data, '&', pos);
      var arg := ParseArgument(data, pos, eq, next);
      FillingStep(data, pos, args[..iarg], eq, next, arg);
      ghost var done := args[..iarg] + [arg];
      args[iarg] := arg;
      assert args[..iarg + 1] == done;
    }

    /** Whatever the data, the slots filled are the ones counted, and one slot is left over. */
    method ParseArguments(data: string)
      modifies this
      ensures fresh(currentArgs) && currentArgs.Length == |Arguments(data)| + 1
      ensures currentArgCount == |Arguments(data)| && currentArgs[..currentArgCount] == Arguments(data)
    {
      if |data| == 0 {
        currentArgCount := 0;
        currentArgs := new Argument[1](_ => Argument("", ""));
        return;
      }
      var count := CountArguments(data);
      var args := new Argument[count + 1](_ => Argument("", ""));
      var pos: nat, iarg, more := 0, 0, true;
      while iarg < count
        invariant 0 <= iarg <= count && Filling(data, pos, args[..iarg], more)
        invariant !more ==> iarg == count
        modifies args
      {
        var next := FillSlot(args, iarg, data, pos);
        iarg := iarg + 1;
        if next == -1 {
          more := false;
          SlotLeft(data, pos, args[..iarg], false);
          break;
        }
        pos := next + 1;
      }
      SlotLeft(data, pos, args[..iarg], more);
      currentArgs, currentArgCount := args, iarg;
    }
  }
}
