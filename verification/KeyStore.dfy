/** The parser's key operations as they change the array in place (SWparser.cpp). */
module KeyStore {
  import opened Text
  import opened KeyTable

  /** Bytes that are the slot's within slot n and the old ones elsewhere are a Put. */
  lemma PutIs(before: KeyBytes, after: KeyBytes, n: nat, slot: SlotBytes)
    requires n < MAX_KEYS
    requires forall m | 0 <= m < 800 :: after[m] == if 8 * n <= m < 8 * n + 8 then slot[m - 8 * n] else before[m]
    ensures after == Put(before, n, slot)
  {}

  lemma FilledAt(slot: SlotBytes, k: string, j: nat)
    requires |k| <= 7 && j < 8
    ensures Filled(slot, k)[j] == if j < |k| then k[j] else if j == |k| || j == 7 then '\0' else slot[j]
  {}

  lemma FilledPut(before: KeyBytes, after: KeyBytes, n: nat, k: string)
    requires n < MAX_KEYS && |k| <= 7
    requires forall m | 0 <= m < 800 ::
               after[m] == if 8 * n <= m < 8 * n + |k| then k[m - 8 * n]
                           else if m == 8 * n + |k| || m == 8 * n + 7 then '\0' else before[m]
    ensures after == Put(before, n, Filled(SlotAt(before, n), k))
  {
    var slot := SlotAt(before, n);
    forall m | 0 <= m < 800
      ensures after[m] == if 8 * n <= m < 8 * n + 8 then Filled(slot, k)[m - 8 * n] else before[m]
    {
      if 8 * n <= m < 8 * n + 8 {
        FilledAt(slot, k, m - 8 * n);
        assert slot[m - 8 * n] == before[m];
      }
    }
    PutIs(before, after, n, Filled(slot, k));
  }

  predicate NotIn(es: seq<Entry>, key: string, n: nat) {
    forall m | 0 <= m < n && m < |es| :: es[m].key != key
  }

  lemma FoundAt(es: seq<Entry>, key: string, n: nat)
    requires n < |es| && NotIn(es, key, n) && es[n].key == key
    ensures Find(es, key, 0) == n
  {}

  lemma NotFound(es: seq<Entry>, key: string)
    requires NotIn(es, key, |es|)
    ensures Find(es, key, 0) == -1
  {}

  lemma LastSlot(b: KeyBytes, n: nat, slot: SlotBytes)
    requires n < MAX_KEYS && forall j | 0 <= j < 8 :: slot[j] == b[8 * n + j]
    ensures slot == SlotAt(b, n)
  {}

  lemma DeleteIs(st: Store, key: string, i: nat)
    requires st.count <= MAX_KEYS && Search(st, key) == i
    ensures Delete(st, key) ==
            Store(Put(st.bytes, i, if i < st.count - 1 then SlotAt(st.bytes, st.count - 1) else ZEROS), st.count - 1)
  {}

  class SWparser {
    const Ekey: array<char>
    var Ekeys: nat
    var Edevelopment: SlotBytes
    var Emasterkey: SlotBytes

    ghost predicate Valid()
      reads this, Ekey
    {
      Ekey.Length == 800 && Ekeys <= MAX_KEYS
    }

    ghost function Keys(): (st: Store)
      reads this, Ekey
      requires Valid()
      ensures st.count <= MAX_KEYS
    {
      Store(Ekey[..], Ekeys)
    }

    constructor (development: SlotBytes, master: SlotBytes)
      ensures Valid() && fresh(Ekey) && Keys() == Clear()
      ensures Edevelopment == development && Emasterkey == master
    {
      Ekey := new char[800](_ => '\0');
      Ekeys := 0;
      Edevelopment, Emasterkey := development, master;
      new;
      assert Ekey[..] == Clear().bytes;
    }

    method SubstractKey(index: nat) returns (s: string)
      requires Valid()
      ensures s == if index < MAX_KEYS then EntryAt(Ekey[..], index).key else ""
    {
      if index * 8 + 8 > Ekey.Length {
        return "";
      }
      assert SlotAt(Ekey[..], index)[..7] == Ekey[index * 8..index * 8 + 7];
      return CStr(Ekey[index * 8..index * 8 + 7]);
    }

    method SearchKey(key: string) returns (r: int)
      requires Valid()
      ensures r == Search(Keys(), key)
    {
      ghost var es := Entries(Keys());
      var n := 0;
      while n < Ekeys && n * 8 < Ekey.Length
        invariant n <= Ekeys && NotIn(es, key, n)
      {
        var ss := SubstractKey(n);
        assert es[n].key == ss;
        if ss == key {
          FoundAt(es, key, n);
          return n;
        }
        n := n + 1;
      }
      NotFound(es, key);
      return -1;
    }

    method CheckKey(key: string) returns (v: Verdict)
      requires Valid()
      ensures v == Check(Keys(), key, Edevelopment, Emasterkey)
    {
      if key == CStr(Edevelopment[..7]) || key == CStr(Emasterkey[..7]) {
        return ISMASTER;
      }
      var i := SearchKey(key);
      if i == -1 {
        return NOTFOUND;
      }
      var flag := Ekey[i * 8 + 7];
      assert SlotAt(Ekey[..], i)[7] == flag;
      return if flag as int % 2 == 1 then INBLACK else FOUND;
    }

    method ToBlackList(key: string)
      requires Valid()
      modifies Ekey
      ensures Valid() && Keys() == Blacken(old(Keys()), key)
    {
      var i := SearchKey(key);
      if i == -1 {
        return;
      }
      var flag := Ekey[i * 8 + 7];
      assert SlotAt(Ekey[..], i)[7] == flag;
      if flag as int % 2 == 0 {
        Ekey[i * 8 + 7] := (flag as int + 1) as char;
      }
      PutIs(old(Ekey[..]), Ekey[..], i, Marked(SlotAt(old(Ekey[..]), i)));
    }

    /** memmove and memset of one slot */
    method SetSlot(n: nat, slot: SlotBytes)
      requires Valid() && n < MAX_KEYS
      modifies Ekey
      ensures Ekey[..] == Put(old(Ekey[..]), n, slot)
    {
      var j := 0;
      while j < 8
        invariant 0 <= j <= 8
        invariant forall m | 0 <= m < 800 ::
                    Ekey[m] == if 8 * n <= m < 8 * n + j then slot[m - 8 * n] else old(Ekey[m])
      {
        Ekey[8 * n + j] := slot[j];
        j := j + 1;
      }
      PutIs(old(Ekey[..]), Ekey[..], n, slot);
    }

    method DeleteKey(key: string) returns (found: bool)
      requires Valid()
      modifies this`Ekeys, Ekey
      ensures Valid() && Keys() == Delete(old(Keys()), key)
      ensures found == (Search(old(Keys()), key) >= 0)
    {
      var i := SearchKey(key);
      if i == -1 {
        return false;
      }
      ghost var st := Keys();
      DeleteIs(st, key, i);
      if i < Ekeys - 1 {
        var last := Ekey[(Ekeys - 1) * 8..(Ekeys - 1) * 8 + 8];
        LastSlot(Ekey[..], Ekeys - 1, last);
        SetSlot(i, last);
      } else {
        SetSlot(Ekeys - 1, ZEROS);
      }
      Ekeys := Ekeys - 1;
      return true;
    }

    method AddKey(key: string) returns (r: Added)
      requires Valid()
      modifies this`Ekeys, Ekey
      ensures Valid() && Keys() == Add(old(Keys()), key)
      ensures r == AddResult(old(Keys()), key)
    {
      var k := key;
      if k == "" {
        return Empty;
      }
      if |key| > 7 {
        k := key[..7];
      }
      var i := SearchKey(k);
      if i >= 0 {
        return Duplicate;
      }
      if (Ekeys + 1) * 8 > Ekey.Length {
        return Full;
      }
      CopyKey(k);
      Ekeys := Ekeys + 1;
      return Added;
    }

    /** toCharArray into the slot after the last key, then the flag byte */
    method CopyKey(k: string)
      requires Valid() && Ekeys < MAX_KEYS && |k| <= 7
      modifies Ekey
      ensures Ekey[..] == Put(old(Ekey[..]), Ekeys, Filled(SlotAt(old(Ekey[..]), Ekeys), k))
    {
      var at := Ekeys * 8;
      var j := 0;
      while j < |k|
        invariant 0 <= j <= |k|
        invariant forall m | 0 <= m < 800 ::
                    Ekey[m] == if at <= m < at + j then k[m - at] else old(Ekey[m])
      {
        Ekey[at + j] := k[j];
        j := j + 1;
      }
      Ekey[at + |k|] := '\0';
      Ekey[at + 7] := '\0';
      FilledPut(old(Ekey[..]), Ekey[..], Ekeys, k);
    }

    method ClearKeys()
      requires Valid()
      modifies this`Ekeys, Ekey
      ensures Valid() && Keys() == Clear()
    {
      forall j | 0 <= j < Ekey.Length {
        Ekey[j] := '\0';
      }
      Ekeys := 0;
      assert Ekey[..] == Clear().bytes;
    }

    /** addKey, whose answer is searched for the word error */
    method Offer(ss: string) returns (rejected: bool)
      requires Valid()
      modifies this`Ekeys, Ekey
      ensures Valid() && Keys() == Add(old(Keys()), ss)
      ensures rejected == Rejected(old(Keys()), ss)
    {
      var r := AddKey(ss);
      rejected := Contains(Message(r, Take7(ss)), "error");
    }

    /** The separator at i ends a piece: a piece that is not empty is offered as a key. */
    method TakePiece(s: string, i: nat, ghost goal: Loaded) returns (go: bool, rest: string)
      requires Valid() && Ekeys < MAX_KEYS && CutAt(s, i) && Leads(Keys(), s, goal)
      modifies this`Ekeys, Ekey
      ensures Valid()
      ensures if go then |rest| < |s| && Leads(Keys(), rest, goal) else Loaded(false, Keys(), s) == goal
    {
      ghost var st := Keys();
      var ss := s[..i];
      rest := s[i + 1..];
      if i == 0 {
        LeadsSkip(st, s, rest, goal);
        return true, rest;
      }
      var rejected := Offer(ss);
      LeadsTake(st, s, i, ss, rest, Keys(), goal);
      go := !rejected;
    }

    /** Cuts keys off the front of the text; returns whether all went well and what is left of the text. */
    method ScanForKeys(text: string) returns (ok: bool, s: string)
      requires Valid()
      modifies this`Ekeys, Ekey
      ensures Valid()
      ensures Loaded(ok, Keys(), s) == Load(old(Keys()), text)
    {
      s := text;
      ghost var goal := Load(Keys(), text);
      var i := 0;
      while Ekeys * 8 < Ekey.Length && i < |s|
        invariant Valid() && 0 <= i <= |s|
        invariant Scanned(s, i)
        invariant Leads(Keys(), s, goal)
        decreases |s|, |s| - i
      {
        if Separator(s[i]) {
          var go, rest := TakePiece(s, i, goal);
          if !go {
            return false, s;
          }
          s, i := rest, 0;
        } else {
          ScannedNext(s, i);
          i := i + 1;
        }
      }
      LeadsEnd(Keys(), s, i, goal);
      return true, s;
    }
  }

  /** A full table or a text without a separator ends the loading. */
  lemma LeadsEnd(st: Store, s: string, i: nat, goal: Loaded)
    requires Leads(st, s, goal) && (st.count >= MAX_KEYS || i >= |s|)
    requires Scanned(s, i)
    ensures Loaded(true, st, s) == goal
  {
    NoCut(s, i);
  }

  lemma {:induction false} CutFrom(s: string, j: nat, i: nat)
    requires j <= i < |s| && Separator(s[i]) && forall n | j <= n < i :: !Separator(s[n])
    ensures Cut(s, j) == i
    decreases i - j
  {
    if j < i {
      CutFrom(s, j + 1, i);
    }
  }

  lemma CutIs(s: string, i: nat)
    requires i < |s| && Separator(s[i]) && forall n | 0 <= n < i :: !Separator(s[n])
    ensures Cut(s, 0) == i
  {
    CutFrom(s, 0, i);
  }

  predicate Leads(st: Store, s: string, goal: Loaded) {
    st.count <= MAX_KEYS && Load(st, s) == goal
  }

  predicate CutAt(s: string, i: nat) {
    i < |s| && Separator(s[i]) && Scanned(s, i)
  }

  /** No separator before i. */
  predicate Scanned(s: string, i: nat) {
    forall n | 0 <= n < i && n < |s| :: !Separator(s[n])
  }

  lemma ScannedNext(s: string, i: nat)
    requires Scanned(s, i) && i < |s| && !Separator(s[i])
    ensures Scanned(s, i + 1)
  {}

  lemma LeadsSkip(st: Store, s: string, rest: string, goal: Loaded)
    requires Leads(st, s, goal) && st.count < MAX_KEYS && CutAt(s, 0) && rest == s[1..]
    ensures Leads(st, rest, goal)
  {
    CutIs(s, 0);
  }

  lemma LeadsTake(st: Store, s: string, i: nat, key: string, rest: string, t: Store, goal: Loaded)
    requires Leads(st, s, goal) && st.count < MAX_KEYS && 0 < i && CutAt(s, i)
    requires key == s[..i] && rest == s[i + 1..] && t == Add(st, key)
    ensures if Rejected(st, key) then goal == Loaded(false, t, s) else Leads(t, rest, goal)
  {
    CutIs(s, i);
  }

  lemma NoCut(s: string, i: nat)
    requires forall n | 0 <= n < i && n < |s| :: !Separator(s[n])
    ensures i >= |s| ==> Cut(s, 0) == -1
  {}
}
