/** The certificate bundle: an index of its records and a binary search by issuer (esp_crt_bundle.c). */
module CertBundle {
  import opened Words

  // ---------------------------------------------------------------- the layout of a bundle

  datatype Crt = Crt(name: seq<Byte>, key: seq<Byte>)

  predicate Sized(cs: seq<Crt>) {
    |cs| < 65536 && forall i | 0 <= i < |cs| :: |cs[i].name| < 65536 && |cs[i].key| < 65536
  }

  function Be16(n: nat): seq<Byte>
    requires n < 65536
  {
    [n / 256, n % 256]
  }

  function Record(c: Crt): (r: seq<Byte>)
    requires |c.name| < 65536 && |c.key| < 65536
    ensures |r| == 4 + |c.name| + |c.key|
  {
    Be16(|c.name|) + Be16(|c.key|) + c.name + c.key
  }

  function Body(cs: seq<Crt>): seq<Byte>
    requires Sized(cs)
  {
    if cs == [] then [] else Body(cs[..|cs| - 1]) + Record(cs[|cs| - 1])
  }

  /** The count, then the records. */
  function Image(cs: seq<Crt>): seq<Byte>
    requires Sized(cs)
  {
    Be16(|cs|) + Body(cs)
  }

  /** Where record i starts. */
  function Offset(cs: seq<Crt>, i: nat): nat
    requires i <= |cs|
  {
    if i == 0 then 2 else Offset(cs, i - 1) + 4 + |cs[i - 1].name| + |cs[i - 1].key|
  }

  lemma {:induction false} OffsetCut(cs: seq<Crt>, n: nat, i: nat)
    requires i <= n <= |cs|
    ensures Offset(cs[..n], i) == Offset(cs, i)
  {
    if i > 0 {
      OffsetCut(cs, n, i - 1);
    }
  }

  lemma {:induction false} BodyLength(cs: seq<Crt>)
    requires Sized(cs)
    ensures 2 + |Body(cs)| == Offset(cs, |cs|)
  {
    if cs != [] {
      var l := |cs| - 1;
      BodyLength(cs[..l]);
      OffsetCut(cs, l, l);
    }
  }

  predicate HoldsAt(s: seq<Byte>, at: nat, t: seq<Byte>) {
    at + |t| <= |s| && s[at..at + |t|] == t
  }

  lemma HoldsLonger(s: seq<Byte>, t: seq<Byte>, at: nat, u: seq<Byte>)
    requires HoldsAt(s, at, u) && |s| <= |t| && forall j | at <= j < |s| :: t[j] == s[j]
    ensures HoldsAt(t, at, u)
  {
    assert t[at..at + |u|] == s[at..at + |u|];
  }

  /** The image holds each record at its offset. */
  lemma {:induction false} RecordAt(cs: seq<Crt>, i: nat)
    requires Sized(cs) && i < |cs|
    ensures HoldsAt(Image(cs), Offset(cs, i), Record(cs[i]))
  {
    var l := |cs| - 1;
    LastRecord(cs);
    if i < l {
      RecordAt(cs[..l], i);
      OffsetCut(cs, l, i);
      OffsetAtLeast(cs, i);
      HoldsLonger(Image(cs[..l]), Image(cs), Offset(cs, i), Record(cs[i]));
    }
  }

  /** One more record changes nothing before it but the count. */
  lemma LastRecord(cs: seq<Crt>)
    requires Sized(cs) && cs != []
    ensures var l := |cs| - 1;
            var image, before := Image(cs), Image(cs[..l]);
            && HoldsAt(image, Offset(cs, l), Record(cs[l]))
            && |before| <= |image| && forall j | 2 <= j < |before| :: image[j] == before[j]
  {
    var l := |cs| - 1;
    BodyLength(cs[..l]);
    OffsetCut(cs, l, l);
    Appended(Be16(|cs|), Be16(l), Body(cs[..l]), Record(cs[l]));
  }

  lemma Appended(head: seq<Byte>, before: seq<Byte>, body: seq<Byte>, last: seq<Byte>)
    requires |head| == |before| == 2
    ensures HoldsAt(head + (body + last), 2 + |body|, last)
    ensures forall j | 2 <= j < |before + body| :: (head + (body + last))[j] == (before + body)[j]
  {}

  lemma {:induction false} OffsetAtLeast(cs: seq<Crt>, i: nat)
    requires i <= |cs|
    ensures Offset(cs, i) >= 2
  {
    if i > 0 {
      OffsetAtLeast(cs, i - 1);
    }
  }

  function U16(s: seq<Byte>, at: nat): nat
    requires at + 2 <= |s|
  {
    var high: int := s[at];
    high * 256 + s[at + 1]
  }

  lemma HoldsPart(s: seq<Byte>, at: nat, t: seq<Byte>, i: nat, u: seq<Byte>, si: nat)
    requires HoldsAt(s, at, t) && HoldsAt(t, i, u) && si == at + i
    ensures HoldsAt(s, si, u)
  {
    assert s[si..si + |u|] == s[at..at + |t|][i..i + |u|];
  }

  lemma U16Holds(s: seq<Byte>, at: nat, n: nat)
    requires n < 65536 && HoldsAt(s, at, Be16(n))
    ensures U16(s, at) == n
  {
    assert s[at] == s[at..at + 2][0] && s[at + 1] == s[at..at + 2][1];
  }

  /** The fields of the record that starts at an offset. */
  lemma RecordFields(s: seq<Byte>, at: nat, c: Crt, keyAt: nat)
    requires |c.name| < 65536 && |c.key| < 65536 && HoldsAt(s, at, Record(c)) && keyAt == at + 4 + |c.name|
    ensures keyAt + |c.key| <= |s| && U16(s, at) == |c.name| && U16(s, at + 2) == |c.key|
    ensures HoldsAt(s, at + 4, c.name) && HoldsAt(s, keyAt, c.key)
  {
    var r := Record(c);
    assert r[0..2] == Be16(|c.name|) && r[2..4] == Be16(|c.key|);
    assert r[4..4 + |c.name|] == c.name && r[4 + |c.name|..] == c.key;
    HoldsPart(s, at, r, 0, Be16(|c.name|), at);
    HoldsPart(s, at, r, 2, Be16(|c.key|), at + 2);
    HoldsPart(s, at, r, 4, c.name, at + 4);
    HoldsPart(s, at, r, 4 + |c.name|, c.key, keyAt);
    U16Holds(s, at, |c.name|);
    U16Holds(s, at + 2, |c.key|);
  }

  lemma CountAt(cs: seq<Crt>)
    requires Sized(cs)
    ensures |Image(cs)| >= 2 && U16(Image(cs), 0) == |cs|
  {}

  /** From one record the lengths in its header lead to the next. */
  lemma NextOffset(image: seq<Byte>, cs: seq<Crt>, i: nat, at: nat)
    requires Sized(cs) && image == Image(cs) && i < |cs| && at == Offset(cs, i)
    ensures at + 4 <= |image| && Offset(cs, i + 1) == at + 4 + U16(image, at) + U16(image, at + 2)
  {
    RecordAt(cs, i);
    RecordFields(image, at, cs[i], at + 4 + |cs[i].name|);
  }

  /** The name and the key of a record, cut out by the lengths in its header. */
  lemma RecordParts(image: seq<Byte>, cs: seq<Crt>, i: nat, at: nat)
    requires Sized(cs) && image == Image(cs) && i < |cs| && at == Offset(cs, i)
    ensures at + 4 <= |image|
    ensures var keyAt := at + 4 + U16(image, at);
            && keyAt + U16(image, at + 2) <= |image|
            && image[at + 4..keyAt] == cs[i].name && image[keyAt..keyAt + U16(image, at + 2)] == cs[i].key
  {
    RecordAt(cs, i);
    RecordFields(image, at, cs[i], at + 4 + |cs[i].name|);
  }

  // ---------------------------------------------------------------- comparing names

  /** memcmp: the sign of the first difference, 0 when the first |b| bytes of a are b. */
  function Memcmp(a: seq<Byte>, b: seq<Byte>, i: nat): int
    requires i <= |b| <= |a|
    decreases |b| - i
  {
    if i == |b| then 0 else if a[i] < b[i] then -1 else if a[i] > b[i] then 1 else Memcmp(a, b, i + 1)
  }

  predicate SameUpTo(a: seq<Byte>, b: seq<Byte>, p: nat) {
    p <= |a| && p <= |b| && forall i | 0 <= i < p :: a[i] == b[i]
  }

  predicate LessAt(a: seq<Byte>, b: seq<Byte>, p: nat) {
    SameUpTo(a, b, p) && p < |a| && p < |b| && a[p] < b[p]
  }

  /** a comes before b, and neither is a prefix of the other. */
  ghost predicate Less(a: seq<Byte>, b: seq<Byte>) {
    exists p: nat :: LessAt(a, b, p)
  }

  lemma {:induction false} MemcmpIs(a: seq<Byte>, b: seq<Byte>, i: nat)
    requires i <= |b| <= |a| && SameUpTo(a, b, i)
    ensures Memcmp(a, b, i) < 0 ==> Less(a, b)
    ensures Memcmp(a, b, i) > 0 ==> Less(b, a)
    ensures Memcmp(a, b, i) == 0 ==> SameUpTo(a, b, |b|)
    decreases |b| - i
  {
    if i < |b| {
      if a[i] < b[i] {
        assert LessAt(a, b, i);
      } else if b[i] < a[i] {
        assert LessAt(b, a, i);
      } else {
        MemcmpIs(a, b, i + 1);
      }
    }
  }

  lemma LessTrans(a: seq<Byte>, b: seq<Byte>, c: seq<Byte>)
    requires Less(a, b) && Less(b, c)
    ensures Less(a, c)
  {
    var p: nat :| LessAt(a, b, p);
    var q: nat :| LessAt(b, c, q);
    assert LessAt(a, c, if p < q then p else q);
  }

  lemma LessExcludes(a: seq<Byte>, b: seq<Byte>)
    requires Less(a, b)
    ensures !SameUpTo(a, b, |a|) && !SameUpTo(a, b, |b|)
  {
    var p: nat :| LessAt(a, b, p);
  }

  /** Sorted by name, no name a prefix of another. */
  ghost predicate Sorted(cs: seq<Crt>) {
    forall i, j | 0 <= i < j < |cs| :: Less(cs[i].name, cs[j].name)
  }

  /** The name starts what lies in memory at the issuer. */
  predicate Starts(c: Crt, mem: seq<Byte>) {
    SameUpTo(mem, c.name, |c.name|)
  }

  /** None of the records from i up to j does. */
  predicate Excluded(cs: seq<Crt>, i: int, j: int, mem: seq<Byte>) {
    forall k | 0 <= i <= k < j <= |cs| :: !Starts(cs[k], mem)
  }

  // ---------------------------------------------------------------- the search

  /** C's division, toward zero. */
  function Half(n: int): int {
    if n < 0 then -((-n) / 2) else n / 2
  }

  datatype Found = NotFound | Found(index: nat, key: seq<Byte>)

  class CrtBundle {
    const image: seq<Byte>
    var crts: array?<nat>
    var numCerts: nat

    /** The index points at each record of the bundle. */
    ghost predicate Valid(cs: seq<Crt>)
      reads this, crts
    {
      && Sized(cs) && image == Image(cs)
      && crts != null && numCerts == |cs| == crts.Length
      && forall i | 0 <= i < |cs| :: crts[i] == Offset(cs, i)
    }

    constructor (image: seq<Byte>)
      ensures this.image == image && crts == null && numCerts == 0
    {
      this.image, crts, numCerts := image, null, 0;
    }

    /** Walks over the records by the lengths in their headers. */
    method FillIndex(index: array<nat>, ghost cs: seq<Crt>)
      requires Sized(cs) && image == Image(cs) && index.Length == |cs|
      modifies index
      ensures forall j | 0 <= j < |cs| :: index[j] == Offset(cs, j)
    {
      var curCrt := 2;
      var i := 0;
      while i < index.Length
        invariant 0 <= i <= |cs| && curCrt == Offset(cs, i)
        invariant forall j | 0 <= j < i :: index[j] == Offset(cs, j)
      {
        NextOffset(image, cs, i, curCrt);
        index[i] := curCrt;
        var nameLen, keyLen := U16(image, curCrt), U16(image, curCrt + 2);
        curCrt := curCrt + 4 + nameLen + keyLen;
        i := i + 1;
      }
    }

    /** esp_crt_bundle_init; the argument says whether the allocation succeeds. */
    method Init(memory: bool, ghost cs: seq<Crt>) returns (ok: bool)
      requires Sized(cs) && image == Image(cs)
      modifies this
      ensures ok == memory
      ensures if ok then Valid(cs) && fresh(crts) else crts == old(crts)
    {
      CountAt(cs);
      numCerts := U16(image, 0);
      if !memory {
        return false;
      }
      var index := new nat[numCerts];
      FillIndex(index, cs);
      crts := index;
      return true;
    }

    method CompareName(i: nat, mem: seq<Byte>, ghost cs: seq<Crt>) returns (cmp: int)
      requires Valid(cs) && i < |cs| && |cs[i].name| <= |mem|
      ensures cmp == Memcmp(mem, cs[i].name, 0)
    {
      var at := crts[i];
      RecordParts(image, cs, i, at);
      var nameLen := U16(image, at);
      cmp := Memcmp(mem, image[at + 4..at + 4 + nameLen], 0);
    }

    method KeyAt(i: nat, ghost cs: seq<Crt>) returns (key: seq<Byte>)
      requires Valid(cs) && i < |cs|
      ensures key == cs[i].key
    {
      var at := crts[i];
      RecordParts(image, cs, i, at);
      var nameLen, keyLen := U16(image, at), U16(image, at + 2);
      key := image[at + 4 + nameLen..at + 4 + nameLen + keyLen];
    }

    /** The search of the verification callback: a record whose name starts what lies in memory at the
        issuer, with the key bytes handed on; none exactly when there is none. */
    method Search(mem: seq<Byte>, ghost cs: seq<Crt>) returns (r: Found)
      requires Valid(cs) && Sorted(cs) && forall i | 0 <= i < |cs| :: |cs[i].name| <= |mem|
      ensures r.Found? ==> r.index < |cs| && Starts(cs[r.index], mem) && r.key == cs[r.index].key
      ensures r.NotFound? ==> forall i | 0 <= i < |cs| :: !Starts(cs[i], mem)
    {
      var start, end: int := 0, numCerts - 1;
      var middle := Half(end - start);
      while start <= end
        invariant 0 <= start <= end + 1 <= |cs|
        invariant start <= end ==> start <= middle <= end
        invariant Excluded(cs, 0, start, mem) && Excluded(cs, end + 1, |cs|, mem)
        decreases end - start + 1
      {
        var cmp := CompareName(middle, mem, cs);
        Compare(cs, middle, mem);
        if cmp == 0 {
          var key := KeyAt(middle, cs);
          return Found(middle, key);
        } else if cmp < 0 {
          end := middle - 1;
        } else {
          start := middle + 1;
        }
        middle := Half(start + end);
      }
      return NotFound;
    }

    /** For names that carry their own length, the search over the memory at the issuer finds a record
        exactly when one has the issuer's name, and hands on that record's key. */
    method FindIssuer(issuer: seq<Byte>, beyond: seq<Byte>, ghost cs: seq<Crt>) returns (r: Found)
      requires Valid(cs) && Sorted(cs) && SelfDelimiting(issuer, cs)
      requires forall i | 0 <= i < |cs| :: |cs[i].name| <= |issuer + beyond|
      ensures r.Found? <==> exists i :: 0 <= i < |cs| && cs[i].name == issuer
      ensures forall i | 0 <= i < |cs| && cs[i].name == issuer :: r == Found(i, cs[i].key)
    {
      r := Search(issuer + beyond, cs);
      forall i | 0 <= i < |cs| ensures Starts(cs[i], issuer + beyond) <==> cs[i].name == issuer {
        StartsIff(issuer, beyond, cs, i);
      }
      if r.Found? {
        assert cs[r.index].name == issuer;
        forall i | 0 <= i < |cs| && cs[i].name == issuer ensures i == r.index {
          OneIndex(cs, i, r.index);
        }
      }
    }
  }

  /** What the comparison with one name tells about all records. */
  lemma Compare(cs: seq<Crt>, m: nat, mem: seq<Byte>)
    requires Sorted(cs) && m < |cs| && |cs[m].name| <= |mem|
    ensures var cmp := Memcmp(mem, cs[m].name, 0);
            && (cmp == 0 ==> Starts(cs[m], mem))
            && (cmp < 0 ==> Excluded(cs, m, |cs|, mem)) && (cmp > 0 ==> Excluded(cs, 0, m + 1, mem))
  {
    var cmp := Memcmp(mem, cs[m].name, 0);
    MemcmpIs(mem, cs[m].name, 0);
    if cmp < 0 {
      AfterExcluded(cs, m, mem);
    } else if cmp > 0 {
      BeforeExcluded(cs, m, mem);
    }
  }

  lemma AfterExcluded(cs: seq<Crt>, m: nat, mem: seq<Byte>)
    requires Sorted(cs) && m < |cs| && Less(mem, cs[m].name)
    ensures Excluded(cs, m, |cs|, mem)
  {
    forall i | m <= i < |cs| ensures !Starts(cs[i], mem) {
      if m < i {
        LessTrans(mem, cs[m].name, cs[i].name);
      }
      LessExcludes(mem, cs[i].name);
    }
  }

  lemma BeforeExcluded(cs: seq<Crt>, m: nat, mem: seq<Byte>)
    requires Sorted(cs) && m < |cs| && Less(cs[m].name, mem)
    ensures Excluded(cs, 0, m + 1, mem)
  {
    forall i | 0 <= i <= m ensures !Starts(cs[i], mem) {
      if i < m {
        LessTrans(cs[i].name, cs[m].name, mem);
      }
      LessExcludes(cs[i].name, mem);
    }
  }

  /** Neither name is a proper prefix of the other, as for names that carry their own length. */
  predicate SelfDelimiting(issuer: seq<Byte>, cs: seq<Crt>) {
    forall i | 0 <= i < |cs| ::
      (SameUpTo(issuer, cs[i].name, |issuer|) || SameUpTo(issuer, cs[i].name, |cs[i].name|)) ==> issuer == cs[i].name
  }

  /** For such names the record found is the issuer's own, whatever lies in memory after the issuer,
      even though the comparison may look past its end. */
  lemma StartsIff(issuer: seq<Byte>, beyond: seq<Byte>, cs: seq<Crt>, i: nat)
    requires SelfDelimiting(issuer, cs) && i < |cs|
    ensures Starts(cs[i], issuer + beyond) <==> cs[i].name == issuer
  {
    if Starts(cs[i], issuer + beyond) {
      OneStarts(issuer, beyond, cs[i].name);
    }
  }

  lemma OneStarts(issuer: seq<Byte>, beyond: seq<Byte>, name: seq<Byte>)
    requires SameUpTo(issuer + beyond, name, |name|)
    ensures SameUpTo(issuer, name, |name|) || SameUpTo(issuer, name, |issuer|)
  {
    assert forall j | 0 <= j < |issuer| :: (issuer + beyond)[j] == issuer[j];
  }

  /** No two records carry the same name, so there is at most one to find. */
  lemma DistinctNames(cs: seq<Crt>, i: nat, j: nat)
    requires Sorted(cs) && i < j < |cs|
    ensures cs[i].name != cs[j].name
  {
    LessExcludes(cs[i].name, cs[j].name);
  }

  lemma NamesDiffer(cs: seq<Crt>, i: nat, j: nat)
    requires Sorted(cs) && i < |cs| && j < |cs| && i != j
    ensures cs[i].name != cs[j].name
  {
    if i < j {
      DistinctNames(cs, i, j);
    } else {
      DistinctNames(cs, j, i);
    }
  }

  lemma OneIndex(cs: seq<Crt>, i: nat, j: nat)
    requires Sorted(cs) && i < |cs| && j < |cs| && cs[i].name == cs[j].name
    ensures i == j
  {
    if i != j {
      NamesDiffer(cs, i, j);
      assert false;
    }
  }
}
