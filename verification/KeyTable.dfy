/** The key array: 100 slots of 8 bytes, a key of at most 7 characters and a flag byte (SWparser.cpp). */
module KeyTable {
  import opened Text

  const MAX_KEYS := 100

  // ---------------------------------------------------------------- slots

  /** The text a C string of at most |s| bytes holds. */
  function CStr(s: string): string {
    if s == "" || s[0] == '\0' then "" else [s[0]] + CStr(s[1..])
  }

  lemma {:induction false} CStrWhole(k: string)
    requires '\0' !in k
    ensures CStr(k) == k
  {
    if k != "" {
      CStrWhole(k[1..]);
    }
  }

  lemma {:induction false} CStrCut(k: string, rest: string)
    requires '\0' !in k
    ensures CStr(k + ['\0'] + rest) == k
  {
    if k == "" {
      assert k + ['\0'] + rest == ['\0'] + rest;
    } else {
      assert (k + ['\0'] + rest)[1..] == k[1..] + ['\0'] + rest;
      CStrCut(k[1..], rest);
    }
  }

  type SlotBytes = s: string | |s| == 8 witness seq(8, _ => '\0')

  function KeyOf(slot: SlotBytes): string {
    CStr(slot[..7])
  }

  predicate Black(slot: SlotBytes) {
    slot[7] as int % 2 == 1
  }

  /** The slot after a key is copied into it with its terminator and the flag is cleared. */
  function Filled(slot: SlotBytes, k: string): SlotBytes
    requires |k| <= 7
  {
    if |k| == 7 then k + ['\0'] else k + ['\0'] + slot[|k| + 1..7] + ['\0']
  }

  lemma FilledKey(slot: SlotBytes, k: string)
    requires |k| <= 7 && '\0' !in k
    ensures KeyOf(Filled(slot, k)) == k && !Black(Filled(slot, k))
  {
    if |k| == 7 {
      assert Filled(slot, k)[..7] == k;
      CStrWhole(k);
    } else {
      assert Filled(slot, k)[..7] == k + ['\0'] + slot[|k| + 1..7];
      CStrCut(k, slot[|k| + 1..7]);
    }
  }

  /** `flag |= 1` */
  function Marked(slot: SlotBytes): SlotBytes {
    if Black(slot) then slot else slot[7 := (slot[7] as int + 1) as char]
  }

  /** The lowest bit of the flag is the mark; marking keeps the other bits. */
  lemma MarkBit(slot: SlotBytes, others: nat)
    ensures slot[7] as int == 2 * others ==> !Black(slot)
    ensures slot[7] as int == 2 * others + 1 ==> Black(slot)
    ensures slot[7] as int == 2 * others || slot[7] as int == 2 * others + 1 ==>
              Marked(slot)[7] as int == 2 * others + 1
  {}

  lemma MarkedKey(slot: SlotBytes)
    ensures KeyOf(Marked(slot)) == KeyOf(slot) && Black(Marked(slot))
  {
    assert Marked(slot)[..7] == slot[..7];
  }

  // ---------------------------------------------------------------- the array of slots

  type KeyBytes = s: string | |s| == 800 witness seq(800, _ => '\0')

  function SlotAt(b: KeyBytes, n: nat): (r: SlotBytes)
    requires n < MAX_KEYS
  {
    b[8 * n..8 * n + 8]
  }

  function Put(b: KeyBytes, n: nat, slot: SlotBytes): KeyBytes
    requires n < MAX_KEYS
  {
    b[..8 * n] + slot + b[8 * n + 8..]
  }

  lemma PutSlot(b: KeyBytes, n: nat, slot: SlotBytes, m: nat)
    requires n < MAX_KEYS && m < MAX_KEYS
    ensures SlotAt(Put(b, n, slot), m) == if m == n then slot else SlotAt(b, m)
  {
    var c := Put(b, n, slot);
    forall j | 0 <= j < 8
      ensures c[8 * m + j] == if m == n then slot[j] else b[8 * m + j]
    {}
  }

  // ---------------------------------------------------------------- lists of entries and maps

  datatype Entry = Entry(key: string, black: bool)

  /** The first entry from n on with the key, or -1. */
  function Find(es: seq<Entry>, key: string, n: nat): (r: int)
    ensures r == -1 || (n <= r < |es| && es[r].key == key && forall m | n <= m < r :: es[m].key != key)
    ensures r == -1 ==> forall m | n <= m < |es| :: es[m].key != key
    decreases |es| - n
  {
    if n >= |es| then -1 else if es[n].key == key then n else Find(es, key, n + 1)
  }

  predicate Distinct(es: seq<Entry>) {
    && (forall i | 0 <= i < |es| :: es[i].key != "")
    && (forall i, j | 0 <= i < j < |es| :: es[i].key != es[j].key)
  }

  /** The finite map a list of entries stands for. */
  function MapOf(es: seq<Entry>): map<string, bool> {
    if es == [] then map[] else MapOf(es[..|es| - 1])[es[|es| - 1].key := es[|es| - 1].black]
  }

  lemma {:induction false} InMap(es: seq<Entry>, k: string)
    ensures k in MapOf(es) <==> Find(es, k, 0) >= 0
  {
    if es != [] {
      var rest := es[..|es| - 1];
      InMap(rest, k);
      if Find(es, k, 0) >= 0 && es[|es| - 1].key != k {
        assert rest[Find(es, k, 0)].key == k;
      }
      if Find(rest, k, 0) >= 0 {
        assert es[Find(rest, k, 0)].key == k;
      }
    }
  }

  lemma {:induction false} MapAt(es: seq<Entry>, n: nat)
    requires Distinct(es) && n < |es|
    ensures es[n].key in MapOf(es) && MapOf(es)[es[n].key] == es[n].black
  {
    if n < |es| - 1 {
      MapAt(es[..|es| - 1], n);
    }
  }

  lemma {:induction false} MapSize(es: seq<Entry>)
    requires Distinct(es)
    ensures |MapOf(es)| == |es|
  {
    if es != [] {
      var rest := es[..|es| - 1];
      MapSize(rest);
      InMap(rest, es[|es| - 1].key);
      assert MapOf(es).Keys == MapOf(rest).Keys + {es[|es| - 1].key};
    }
  }

  lemma {:induction false} MapUpdate(es: seq<Entry>, n: nat, black: bool)
    requires Distinct(es) && n < |es|
    ensures MapOf(es[n := Entry(es[n].key, black)]) == MapOf(es)[es[n].key := black]
  {
    var l := |es| - 1;
    var fs := es[n := Entry(es[n].key, black)];
    if n < l {
      MapUpdate(es[..l], n, black);
      assert fs[..l] == es[..l][n := Entry(es[n].key, black)];
    } else {
      assert fs[..l] == es[..l];
    }
  }

  lemma DistinctAppend(es: seq<Entry>, e: Entry)
    requires Distinct(es) && e.key != "" && Find(es, e.key, 0) == -1
    ensures Distinct(es + [e])
  {
    var fs := es + [e];
    forall i | 0 <= i < |fs| ensures fs[i].key != "" {
      assert i < |es| ==> fs[i] == es[i];
    }
    forall i, j | 0 <= i < j < |fs| ensures fs[i].key != fs[j].key {
      assert fs[i] == es[i] && (j < |es| ==> fs[j] == es[j]);
    }
  }

  lemma MapAppend(es: seq<Entry>, e: Entry)
    ensures MapOf(es + [e]) == MapOf(es)[e.key := e.black]
  {
    assert (es + [e])[..|es|] == es;
  }

  /** The list after the last entry is moved over entry n. */
  function Removed(es: seq<Entry>, n: nat): (r: seq<Entry>)
    requires n < |es|
    ensures |r| == |es| - 1
  {
    var l := |es| - 1;
    if n < l then es[..l][n := es[l]] else es[..l]
  }

  predicate Agrees(e: Entry, m: map<string, bool>) {
    e.key in m && m[e.key] == e.black
  }

  predicate Has(es: seq<Entry>, k: string) {
    exists i :: 0 <= i < |es| && es[i].key == k
  }

  lemma MapIsAt(es: seq<Entry>, m: map<string, bool>, k: string)
    requires Distinct(es) && (forall i | 0 <= i < |es| :: Agrees(es[i], m)) && (k in m ==> Has(es, k))
    ensures k in MapOf(es) <==> k in m
    ensures k in m ==> MapOf(es)[k] == m[k]
  {
    InMap(es, k);
    var i := Find(es, k, 0);
    if i >= 0 {
      assert Agrees(es[i], m);
      MapAt(es, i);
    }
  }

  /** Distinct entries that agree with a map and cover it stand for it. */
  lemma MapIs(es: seq<Entry>, m: map<string, bool>)
    requires Distinct(es) && (forall i | 0 <= i < |es| :: Agrees(es[i], m)) && forall k | k in m :: Has(es, k)
    ensures MapOf(es) == m
  {
    var t := MapOf(es);
    forall k ensures (k in t <==> k in m) && (k in m ==> t[k] == m[k]) {
      MapIsAt(es, m, k);
    }
  }

  lemma RemovedAt(es: seq<Entry>, n: nat, i: nat)
    requires n < |es| && i < |es| - 1
    ensures Removed(es, n)[i] == if i == n then es[|es| - 1] else es[i]
  {}

  lemma RemovedDistinct(es: seq<Entry>, n: nat)
    requires Distinct(es) && n < |es|
    ensures Distinct(Removed(es, n))
  {
    forall i | 0 <= i < |es| - 1 ensures Removed(es, n)[i] == if i == n then es[|es| - 1] else es[i] {
      RemovedAt(es, n, i);
    }
  }

  lemma RemovedAgrees(es: seq<Entry>, n: nat, i: nat)
    requires Distinct(es) && n < |es| && i < |es| - 1
    ensures Agrees(Removed(es, n)[i], MapOf(es) - {es[n].key})
  {
    var j := if i == n then |es| - 1 else i;
    RemovedAt(es, n, i);
    MapAt(es, j);
    assert es[j].key != es[n].key;
  }

  lemma RemovedKeeps(es: seq<Entry>, n: nat, j: nat)
    requires n < |es| && j < |es| && j != n
    ensures Has(Removed(es, n), es[j].key)
  {
    var i := if j == |es| - 1 then n else j;
    RemovedAt(es, n, i);
    assert Removed(es, n)[i].key == es[j].key;
  }

  lemma RemovedHas(es: seq<Entry>, n: nat, k: string)
    requires n < |es| && k in MapOf(es) && k != es[n].key
    ensures Has(Removed(es, n), k)
  {
    InMap(es, k);
    RemovedKeeps(es, n, Find(es, k, 0));
  }

  /** Moving the last entry into the hole takes exactly the entry there out of the map. */
  lemma MapRemove(es: seq<Entry>, n: nat)
    requires Distinct(es) && n < |es|
    ensures Distinct(Removed(es, n)) && MapOf(Removed(es, n)) == MapOf(es) - {es[n].key}
  {
    var m := MapOf(es) - {es[n].key};
    RemovedDistinct(es, n);
    forall i | 0 <= i < |Removed(es, n)| ensures Agrees(Removed(es, n)[i], m) {
      RemovedAgrees(es, n, i);
    }
    forall k | k in m ensures Has(Removed(es, n), k) {
      RemovedHas(es, n, k);
    }
    MapIs(Removed(es, n), m);
  }

  // ---------------------------------------------------------------- the store

  /** The key array and the number of keys in it; what lies past the last key is left over. */
  datatype Store = Store(bytes: KeyBytes, count: nat)

  function EntryAt(b: KeyBytes, n: nat): Entry
    requires n < MAX_KEYS
  {
    Entry(KeyOf(SlotAt(b, n)), Black(SlotAt(b, n)))
  }

  lemma PutEntry(b: KeyBytes, n: nat, slot: SlotBytes, m: nat)
    requires n < MAX_KEYS && m < MAX_KEYS
    ensures EntryAt(Put(b, n, slot), m) == if m == n then Entry(KeyOf(slot), Black(slot)) else EntryAt(b, m)
  {
    PutSlot(b, n, slot, m);
  }

  function Entries(st: Store): (es: seq<Entry>)
    requires st.count <= MAX_KEYS
    ensures |es| == st.count && forall i | 0 <= i < st.count :: es[i] == EntryAt(st.bytes, i)
  {
    seq(st.count, i requires 0 <= i < st.count => EntryAt(st.bytes, i))
  }

  /** What every operation keeps: the keys fit, none is empty, no two are the same. */
  predicate Inv(st: Store) {
    st.count <= MAX_KEYS && Distinct(Entries(st))
  }

  function Table(st: Store): map<string, bool>
    requires Inv(st)
  {
    MapOf(Entries(st))
  }

  function Search(st: Store, key: string): (r: int)
    requires st.count <= MAX_KEYS
    ensures -1 <= r < st.count
  {
    Find(Entries(st), key, 0)
  }

  // ---------------------------------------------------------------- the operations on bytes

  /** What fits a slot: the start of a key, up to seven characters. */
  function Take7(key: string): (r: string)
    ensures r <= key && |r| == if |key| < 7 then |key| else 7
  {
    if |key| > 7 then key[..7] else key
  }

  datatype Added = Added | Empty | Duplicate | Full

  function AddResult(st: Store, key: string): Added
    requires st.count <= MAX_KEYS
  {
    if key == "" then Empty
    else if Search(st, Take7(key)) >= 0 then Duplicate
    else if (st.count + 1) * 8 <= 800 then Added
    else Full
  }

  function Add(st: Store, key: string): Store
    requires st.count <= MAX_KEYS
  {
    if AddResult(st, key).Added? then
      Store(Put(st.bytes, st.count, Filled(SlotAt(st.bytes, st.count), Take7(key))), st.count + 1)
    else st
  }

  const ZEROS: SlotBytes := ['\0', '\0', '\0', '\0', '\0', '\0', '\0', '\0']

  function DeleteAt(st: Store, i: nat): Store
    requires i < st.count <= MAX_KEYS
  {
    Store(Put(st.bytes, i, if i < st.count - 1 then SlotAt(st.bytes, st.count - 1) else ZEROS), st.count - 1)
  }

  function Delete(st: Store, key: string): Store
    requires st.count <= MAX_KEYS
  {
    var i := Search(st, key);
    if i == -1 then st else DeleteAt(st, i)
  }

  function BlackenAt(st: Store, i: nat): Store
    requires i < st.count <= MAX_KEYS
  {
    Store(Put(st.bytes, i, Marked(SlotAt(st.bytes, i))), st.count)
  }

  function Blacken(st: Store, key: string): Store
    requires st.count <= MAX_KEYS
  {
    var i := Search(st, key);
    if i == -1 then st else BlackenAt(st, i)
  }

  datatype Verdict = ISMASTER | NOTFOUND | INBLACK | FOUND

  function Check(st: Store, key: string, development: SlotBytes, master: SlotBytes): Verdict
    requires st.count <= MAX_KEYS
  {
    if key == KeyOf(development) || key == KeyOf(master) then ISMASTER
    else
      var i := Search(st, key);
      if i == -1 then NOTFOUND else if Black(SlotAt(st.bytes, i)) then INBLACK else FOUND
  }

  function Clear(): Store {
    Store(seq(800, _ => '\0'), 0)
  }

  // ---------------------------------------------------------------- each operation on the map

  lemma AddEntries(st: Store, k: string)
    requires st.count < MAX_KEYS && |k| <= 7 && '\0' !in k
    ensures var t := Store(Put(st.bytes, st.count, Filled(SlotAt(st.bytes, st.count), k)), st.count + 1);
            Entries(t) == Entries(st) + [Entry(k, false)]
  {
    var slot := Filled(SlotAt(st.bytes, st.count), k);
    var t := Store(Put(st.bytes, st.count, slot), st.count + 1);
    FilledKey(SlotAt(st.bytes, st.count), k);
    forall m | 0 <= m < t.count ensures Entries(t)[m] == (Entries(st) + [Entry(k, false)])[m] {
      PutEntry(st.bytes, st.count, slot, m);
    }
  }

  /** What the result of an addition says about the map. */
  lemma AddResultIs(st: Store, key: string)
    requires Inv(st)
    ensures AddResult(st, key) ==
            if key == "" then Empty else if Take7(key) in Table(st) then Duplicate
            else if |Table(st)| < MAX_KEYS then Added else Full
  {
    InMap(Entries(st), Take7(key));
    MapSize(Entries(st));
  }

  lemma AddedTable(st: Store, t: Store, e: Entry)
    requires Inv(st) && t.count <= MAX_KEYS && e.key != "" && Find(Entries(st), e.key, 0) == -1
    requires Entries(t) == Entries(st) + [e]
    ensures Inv(t) && Table(t) == Table(st)[e.key := e.black]
  {
    DistinctAppend(Entries(st), e);
    MapAppend(Entries(st), e);
  }

  lemma AddRefines(st: Store, key: string)
    requires Inv(st) && '\0' !in key
    ensures Inv(Add(st, key))
    ensures Table(Add(st, key)) ==
            if AddResult(st, key).Added? then Table(st)[Take7(key) := false] else Table(st)
  {
    if AddResult(st, key).Added? {
      AddEntries(st, Take7(key));
      AddedTable(st, Add(st, key), Entry(Take7(key), false));
    }
  }

  lemma DeleteEntry(st: Store, i: nat, m: nat)
    requires i < st.count <= MAX_KEYS && m < st.count - 1
    ensures EntryAt(DeleteAt(st, i).bytes, m) == EntryAt(st.bytes, if m == i then st.count - 1 else m)
  {
    var l := st.count - 1;
    PutEntry(st.bytes, i, if i < l then SlotAt(st.bytes, l) else ZEROS, m);
  }

  lemma DeleteEntries(st: Store, i: nat)
    requires i < st.count <= MAX_KEYS
    ensures Entries(DeleteAt(st, i)) == Removed(Entries(st), i)
  {
    var es, t := Entries(st), DeleteAt(st, i);
    forall m | 0 <= m < t.count ensures Entries(t)[m] == Removed(es, i)[m] {
      DeleteEntry(st, i, m);
      RemovedAt(es, i, m);
    }
  }

  lemma DeleteRefines(st: Store, key: string)
    requires Inv(st)
    ensures Inv(Delete(st, key)) && Table(Delete(st, key)) == Table(st) - {key}
  {
    var i := Search(st, key);
    InMap(Entries(st), key);
    if i >= 0 {
      DeleteEntries(st, i);
      MapRemove(Entries(st), i);
    }
  }

  lemma BlackenEntries(st: Store, i: nat)
    requires i < st.count <= MAX_KEYS
    ensures Entries(BlackenAt(st, i)) == Entries(st)[i := Entry(Entries(st)[i].key, true)]
  {
    var es, t := Entries(st), BlackenAt(st, i);
    MarkedKey(SlotAt(st.bytes, i));
    forall m | 0 <= m < t.count ensures Entries(t)[m] == es[i := Entry(es[i].key, true)][m] {
      PutEntry(st.bytes, i, Marked(SlotAt(st.bytes, i)), m);
    }
  }

  lemma BlackenRefines(st: Store, key: string)
    requires Inv(st)
    ensures Inv(Blacken(st, key))
    ensures Table(Blacken(st, key)) == if key in Table(st) then Table(st)[key := true] else Table(st)
  {
    var i := Search(st, key);
    InMap(Entries(st), key);
    if i >= 0 {
      BlackenEntries(st, i);
      MapUpdate(Entries(st), i, true);
    }
  }

  /** What a check says about a key, from the map. */
  function VerdictOf(m: map<string, bool>, key: string, development: SlotBytes, master: SlotBytes): Verdict {
    if key == KeyOf(development) || key == KeyOf(master) then ISMASTER
    else if key !in m then NOTFOUND
    else if m[key] then INBLACK else FOUND
  }

  lemma CheckRefines(st: Store, key: string, development: SlotBytes, master: SlotBytes)
    requires Inv(st)
    ensures Check(st, key, development, master) == VerdictOf(Table(st), key, development, master)
  {
    InMap(Entries(st), key);
    if Search(st, key) >= 0 {
      MapAt(Entries(st), Search(st, key));
    }
  }

  lemma CountIsSize(st: Store)
    requires Inv(st)
    ensures |Table(st)| == st.count
  {
    MapSize(Entries(st));
  }

  // ---------------------------------------------------------------- runs of commands

  datatype Command = AddKey(key: string) | DeleteKey(key: string) | ToBlackList(key: string) | ClearKeys

  function Apply(st: Store, c: Command): (r: Store)
    requires st.count <= MAX_KEYS
    ensures r.count <= MAX_KEYS
  {
    match c
    case AddKey(key) => Add(st, key)
    case DeleteKey(key) => Delete(st, key)
    case ToBlackList(key) => Blacken(st, key)
    case ClearKeys => Clear()
  }

  function ApplyAll(st: Store, cs: seq<Command>): (r: Store)
    requires st.count <= MAX_KEYS
    ensures r.count <= MAX_KEYS
  {
    if cs == [] then st else Apply(ApplyAll(st, cs[..|cs| - 1]), cs[|cs| - 1])
  }

  /** The same command on a finite map of at most MAX_KEYS keys. */
  function OnMap(m: map<string, bool>, c: Command): map<string, bool> {
    match c
    case AddKey(key) =>
      if key == "" || Take7(key) in m || |m| >= MAX_KEYS then m else m[Take7(key) := false]
    case DeleteKey(key) => m - {key}
    case ToBlackList(key) => if key in m then m[key := true] else m
    case ClearKeys => map[]
  }

  function AllOnMap(m: map<string, bool>, cs: seq<Command>): map<string, bool> {
    if cs == [] then m else OnMap(AllOnMap(m, cs[..|cs| - 1]), cs[|cs| - 1])
  }

  /** Arguments come from C strings. */
  predicate Texts(cs: seq<Command>) {
    forall i | 0 <= i < |cs| && cs[i].AddKey? :: '\0' !in cs[i].key
  }

  lemma ApplyRefines(st: Store, c: Command)
    requires Inv(st) && (c.AddKey? ==> '\0' !in c.key)
    ensures Inv(Apply(st, c)) && Table(Apply(st, c)) == OnMap(Table(st), c)
  {
    match c
    case AddKey(key) => AddRefines(st, key); AddResultIs(st, key);
    case DeleteKey(key) => DeleteRefines(st, key);
    case ToBlackList(key) => BlackenRefines(st, key);
    case ClearKeys =>
  }

  /** After any commands, whatever bytes were left behind, the array is the finite map that the same
      commands make. */
  lemma {:induction false} RunRefines(st: Store, cs: seq<Command>)
    requires Inv(st) && Texts(cs)
    ensures Inv(ApplyAll(st, cs)) && Table(ApplyAll(st, cs)) == AllOnMap(Table(st), cs)
  {
    if cs != [] {
      var before := cs[..|cs| - 1];
      RunRefines(st, before);
      ApplyRefines(ApplyAll(st, before), cs[|cs| - 1]);
    }
  }

  /** And every check answers from that map. */
  lemma RunChecks(st: Store, cs: seq<Command>, key: string, development: SlotBytes, master: SlotBytes)
    requires Inv(st) && Texts(cs)
    ensures Check(ApplyAll(st, cs), key, development, master)
            == VerdictOf(AllOnMap(Table(st), cs), key, development, master)
  {
    RunRefines(st, cs);
    CheckRefines(ApplyAll(st, cs), key, development, master);
  }

  // ---------------------------------------------------------------- loading keys from a text

  predicate Separator(c: char) {
    c == '\n' || c == '\t' || c == ' ' || c == ';' || c == ',' || c == '"'
  }

  /** The first separator at or after i, or -1. */
  function Cut(s: string, i: nat): (r: int)
    ensures r == -1 || (i <= r < |s| && Separator(s[r]) && forall j | i <= j < r :: !Separator(s[j]))
    ensures r == -1 ==> forall j | i <= j < |s| :: !Separator(s[j])
    decreases |s| - i
  {
    if i >= |s| then -1 else if Separator(s[i]) then i else Cut(s, i + 1)
  }

  /** What addKey answers. */
  function Message(r: Added, k: string): string {
    match r
    case Added => "Ключ " + k + " добавлен."
    case Empty => "error" + ": empty value"
    case Duplicate => "error" + ": ключ уже содержится в массиве."
    case Full => "error" + ": невозможно добавить ключ-достигнуто максимальное количество."
  }

  /** The answer is searched for the word error; a stored key that contains the word counts as one. */
  predicate Rejected(st: Store, key: string)
    requires st.count <= MAX_KEYS
  {
    Contains(Message(AddResult(st, key), Take7(key)), "error")
  }

  lemma RejectedIff(st: Store, key: string)
    requires st.count <= MAX_KEYS
    ensures Rejected(st, key) <==> !AddResult(st, key).Added? || Contains(Take7(key), "error")
  {
    var k := Take7(key);
    if AddResult(st, key).Added? {
      AddedMessage(k);
    } else {
      ErrorFirst(": empty value");
      ErrorFirst(": ключ уже содержится в массиве.");
      ErrorFirst(": невозможно добавить ключ-достигнуто максимальное количество.");
    }
  }

  lemma ErrorFirst(rest: string)
    ensures Contains("error" + rest, "error")
  {
    assert ("error" + rest)[0..5] == "error";
  }

  lemma AddedMessage(k: string)
    ensures Contains("Ключ " + k + " добавлен.", "error") <==> Contains(k, "error")
  {
    var pre, last := "Ключ ", "добавлен.";
    assert pre + k + " добавлен." == pre + (k + [' '] + last);
    ContainsSkip(pre, k + [' '] + last, "error");
    ContainsSplit(k, ' ', last, "error");
    ContainsFirstChar(last, "error");
  }

  datatype Loaded = Loaded(ok: bool, st: Store, rest: string)

  /** The text is cut at separators; the first rejection and a full table stop the loading. */
  function Load(st: Store, s: string): Loaded
    requires st.count <= MAX_KEYS
    decreases |s|
  {
    var c := Cut(s, 0);
    if st.count * 8 >= 800 || c < 0 then Loaded(true, st, s)
    else if c == 0 then Load(st, s[1..])
    else if Rejected(st, s[..c]) then Loaded(false, Add(st, s[..c]), s)
    else Load(Add(st, s[..c]), s[c + 1..])
  }

  /** The pieces of a text that a separator ends. */
  function Pieces(s: string): seq<string>
    decreases |s|
  {
    var c := Cut(s, 0);
    if c < 0 then [] else [s[..c]] + Pieces(s[c + 1..])
  }

  /** The text after its first n pieces. */
  function After(s: string, n: nat): string {
    var c := Cut(s, 0);
    if n == 0 || c < 0 then s else After(s[c + 1..], n - 1)
  }

  datatype Folded = Folded(ok: bool, table: map<string, bool>, used: nat)

  function Next(f: Folded): Folded {
    f.(used := f.used + 1)
  }

  /** Adding the pieces to a map one after another. */
  function FoldKeys(m: map<string, bool>, ps: seq<string>): Folded
    decreases |ps|
  {
    if |m| >= MAX_KEYS || ps == [] then Folded(true, m, 0)
    else if ps[0] == "" then Next(FoldKeys(m, ps[1..]))
    else if Take7(ps[0]) in m then Folded(false, m, 0)
    else if Contains(Take7(ps[0]), "error") then Folded(false, m[Take7(ps[0]) := false], 0)
    else Next(FoldKeys(m[Take7(ps[0]) := false], ps[1..]))
  }

  predicate Agree(l: Loaded, f: Folded, s: string) {
    l.ok == f.ok && Inv(l.st) && Table(l.st) == f.table && l.rest == After(s, f.used)
  }

  /** Loading a text is folding the addition over its pieces, and what is left is what follows the
      pieces that were taken. */
  lemma {:induction false} LoadIsFold(st: Store, s: string)
    requires Inv(st) && '\0' !in s
    ensures Agree(Load(st, s), FoldKeys(Table(st), Pieces(s)), s)
    decreases |s|
  {
    var c := Cut(s, 0);
    CountIsSize(st);
    if st.count < MAX_KEYS && c >= 0 {
      var key, rest := s[..c], s[c + 1..];
      if c == 0 {
        LoadIsFold(st, rest);
        SkipPiece(st, s, rest, Load(st, rest), FoldKeys(Table(st), Pieces(rest)));
      } else {
        LoadStep(st, key);
        if Rejected(st, key) {
          StopAtPiece(st, s, key, rest);
        } else {
          LoadIsFold(Add(st, key), rest);
          TakePiece(st, s, key, rest, Load(Add(st, key), rest), Table(Add(st, key)));
        }
      }
    }
  }

  lemma PiecesCons(s: string, key: string, rest: string)
    requires Cut(s, 0) == |key| && key == s[..|key|] && rest == s[|key| + 1..]
    ensures Pieces(s) == [key] + Pieces(rest)
  {}

  lemma AgreeNext(l: Loaded, f: Folded, s: string, rest: string)
    requires Agree(l, f, rest) && Cut(s, 0) >= 0 && rest == s[Cut(s, 0) + 1..]
    ensures Agree(l, Next(f), s)
  {
    AfterNext(s, f.used);
  }

  lemma LoadSkips(st: Store, s: string, rest: string)
    requires st.count < MAX_KEYS && Cut(s, 0) == 0 && rest == s[1..]
    ensures Load(st, s) == Load(st, rest)
  {}

  lemma LoadTakes(st: Store, s: string, key: string, rest: string)
    requires st.count < MAX_KEYS && key != "" && !Rejected(st, key)
    requires Cut(s, 0) == |key| && key == s[..|key|] && rest == s[|key| + 1..]
    ensures Load(st, s) == Load(Add(st, key), rest)
  {}

  lemma LoadStops(st: Store, s: string, key: string)
    requires st.count < MAX_KEYS && key != "" && Rejected(st, key)
    requires Cut(s, 0) == |key| && key == s[..|key|]
    ensures Load(st, s) == Loaded(false, Add(st, key), s)
  {}

  lemma SkipPiece(st: Store, s: string, rest: string, l: Loaded, f: Folded)
    requires Inv(st) && st.count < MAX_KEYS && Cut(s, 0) == 0 && rest == s[1..]
    requires l == Load(st, rest) && f == FoldKeys(Table(st), Pieces(rest)) && Agree(l, f, rest)
    ensures Agree(Load(st, s), FoldKeys(Table(st), Pieces(s)), s)
  {
    CountIsSize(st);
    PiecesCons(s, "", rest);
    LoadSkips(st, s, rest);
    FoldSkips(Table(st), Pieces(rest));
    AgreeNext(l, f, s, rest);
  }

  lemma StopAtPiece(st: Store, s: string, key: string, rest: string)
    requires Inv(st) && st.count < MAX_KEYS && '\0' !in key && key != ""
    requires Cut(s, 0) == |key| && key == s[..|key|] && rest == s[|key| + 1..] && Rejected(st, key)
    ensures Agree(Load(st, s), FoldKeys(Table(st), Pieces(s)), s)
  {
    CountIsSize(st);
    LoadStep(st, key);
    PiecesCons(s, key, rest);
    LoadStops(st, s, key);
    FoldStops(Table(st), key, Pieces(rest));
  }

  lemma TakePiece(st: Store, s: string, key: string, rest: string, l: Loaded, m: map<string, bool>)
    requires Inv(st) && st.count < MAX_KEYS && key != "" && '\0' !in key
    requires Cut(s, 0) == |key| && key == s[..|key|] && rest == s[|key| + 1..] && !Rejected(st, key)
    requires l == Load(Add(st, key), rest) && m == Table(st)[Take7(key) := false]
    requires Agree(l, FoldKeys(m, Pieces(rest)), rest)
    ensures Agree(Load(st, s), FoldKeys(Table(st), Pieces(s)), s)
  {
    CountIsSize(st);
    LoadStep(st, key);
    LoadTakes(st, s, key, rest);
    FoldTakes(Table(st), key, Pieces(rest));
    PiecesCons(s, key, rest);
    AgreeNext(l, FoldKeys(m, Pieces(rest)), s, rest);
  }

  lemma FoldSkips(m: map<string, bool>, ps: seq<string>)
    requires |m| < MAX_KEYS
    ensures FoldKeys(m, [""] + ps) == Next(FoldKeys(m, ps))
  {
    assert ([""] + ps)[1..] == ps;
  }

  lemma FoldStops(m: map<string, bool>, key: string, ps: seq<string>)
    requires |m| < MAX_KEYS && key != "" && (Take7(key) in m || Contains(Take7(key), "error"))
    ensures FoldKeys(m, [key] + ps) ==
            Folded(false, if Take7(key) in m then m else m[Take7(key) := false], 0)
  {}

  lemma FoldTakes(m: map<string, bool>, key: string, ps: seq<string>)
    requires |m| < MAX_KEYS && key != "" && Take7(key) !in m && !Contains(Take7(key), "error")
    ensures FoldKeys(m, [key] + ps) == Next(FoldKeys(m[Take7(key) := false], ps))
  {
    assert ([key] + ps)[1..] == ps;
  }

  lemma AfterNext(s: string, n: nat)
    requires Cut(s, 0) >= 0
    ensures After(s, n + 1) == After(s[Cut(s, 0) + 1..], n)
  {}

  lemma LoadStep(st: Store, key: string)
    requires Inv(st) && st.count < MAX_KEYS && '\0' !in key && key != ""
    ensures Rejected(st, key) <==> Take7(key) in Table(st) || Contains(Take7(key), "error")
    ensures Inv(Add(st, key))
    ensures Table(Add(st, key)) ==
            if Take7(key) in Table(st) then Table(st) else Table(st)[Take7(key) := false]
  {
    RejectedIff(st, key);
    AddResultIs(st, key);
    AddRefines(st, key);
    CountIsSize(st);
  }

  /** The six characters between keys: newline, tab, space, semicolon, comma and quote. */
  const SEPARATORS := "\n\t ;,\""

  lemma SeparatorIff(c: char)
    ensures Separator(c) <==> c in SEPARATORS
  {
    assert SEPARATORS == ['\n', '\t', ' ', ';', ',', '"'];
  }

  /** Each key followed by some separators, in any mix. */
  function Listed(ks: seq<string>, seps: seq<string>): string
    requires |ks| == |seps|
  {
    if ks == [] then "" else ks[0] + (seps[0] + Listed(ks[1..], seps[1..]))
  }

  predicate AllSeparators(s: string) {
    forall j | 0 <= j < |s| :: s[j] in SEPARATORS
  }

  predicate Separating(seps: seq<string>) {
    forall i | 0 <= i < |seps| :: seps[i] != "" && AllSeparators(seps[i])
  }

  predicate LoadableKey(k: string) {
    0 < |k| <= 7 && '\0' !in k && !Contains(k, "error") && forall j | 0 <= j < |k| :: k[j] !in SEPARATORS
  }

  predicate AllNew(m: map<string, bool>, ks: seq<string>) {
    && |m| + |ks| <= MAX_KEYS
    && (forall i | 0 <= i < |ks| :: LoadableKey(ks[i]) && ks[i] !in m)
    && (forall i, j | 0 <= i < j < |ks| :: ks[i] != ks[j])
  }

  function With(m: map<string, bool>, ks: seq<string>): map<string, bool>
    decreases |ks|
  {
    if ks == [] then m else With(m[ks[0] := false], ks[1..])
  }

  lemma CutAtKey(k: string, rest: string)
    requires LoadableKey(k) && rest != "" && rest[0] in SEPARATORS
    ensures Cut(k + rest, 0) == |k| && (k + rest)[..|k|] == k && (k + rest)[|k| + 1..] == rest[1..]
  {
    var s := k + rest;
    SeparatorIff(rest[0]);
    forall j | 0 <= j < |k| ensures !Separator(s[j]) {
      assert s[j] == k[j];
      SeparatorIff(k[j]);
    }
    assert s[|k|] == rest[0];
  }

  lemma CutAtOnce(s: string)
    requires s != "" && s[0] in SEPARATORS
    ensures Cut(s, 0) == 0 && s[..0] == ""
  {
    SeparatorIff(s[0]);
  }

  /** The fold over a text takes all the keys, and leaves nothing but separators, nothing at all when the
      table does not become full. */
  predicate TakesAll(f: Folded, m: map<string, bool>, ks: seq<string>, s: string) {
    && f.ok && f.table == With(m, ks) && AllSeparators(After(s, f.used))
    && (|m| + |ks| < MAX_KEYS ==> After(s, f.used) == "")
  }

  lemma ListedNoNul(ks: seq<string>, seps: seq<string>)
    requires |ks| == |seps| && Separating(seps) && forall i | 0 <= i < |ks| :: LoadableKey(ks[i])
    ensures '\0' !in Listed(ks, seps)
    decreases |ks|
  {
    if ks != [] {
      assert AllSeparators(seps[0]) && LoadableKey(ks[0]);
      assert '\0' !in SEPARATORS;
      ListedNoNul(ks[1..], seps[1..]);
    }
  }

  /** Separators before the keys are skipped. */
  lemma {:induction false} FoldListed(m: map<string, bool>, run: string, ks: seq<string>, seps: seq<string>)
    requires |ks| == |seps| && Separating(seps) && AllNew(m, ks) && AllSeparators(run)
    ensures var s := run + Listed(ks, seps); TakesAll(FoldKeys(m, Pieces(s)), m, ks, s)
    decreases |ks|, |run|
  {
    var s := run + Listed(ks, seps);
    if |m| == MAX_KEYS || (run == "" && ks == []) {
      NoneLeft(m, run, ks, s);
    } else if run != "" {
      RunFirst(run, Listed(ks, seps));
      FoldListed(m, run[1..], ks, seps);
      FoldSkipsRun(m, ks, s, run[1..] + Listed(ks, seps));
    } else {
      KeyFirst(ks, seps);
      AllNewNext(m, ks);
      FoldListed(m[ks[0] := false], seps[0][1..], ks[1..], seps[1..]);
      assert s == Listed(ks, seps);
      FoldTakesKey(m, ks, s, seps[0][1..] + Listed(ks[1..], seps[1..]));
    }
  }

  lemma NoneLeft(m: map<string, bool>, run: string, ks: seq<string>, s: string)
    requires AllNew(m, ks) && AllSeparators(run) && (|m| == MAX_KEYS || run == "")
    requires ks == [] && s == run + ""
    ensures TakesAll(FoldKeys(m, Pieces(s)), m, ks, s)
  {
    assert s == run;
  }

  lemma RunFirst(run: string, rest: string)
    requires run != "" && AllSeparators(run)
    ensures Cut(run + rest, 0) == 0 && (run + rest)[1..] == run[1..] + rest
  {
    assert run[0] in SEPARATORS;
    CutAtOnce(run + rest);
  }

  lemma KeyFirst(ks: seq<string>, seps: seq<string>)
    requires |ks| == |seps| && ks != [] && Separating(seps) && LoadableKey(ks[0])
    ensures var s := Listed(ks, seps);
            && Cut(s, 0) == |ks[0]| && s[..|ks[0]|] == ks[0]
            && s[|ks[0]| + 1..] == seps[0][1..] + Listed(ks[1..], seps[1..])
  {
    var rest := seps[0] + Listed(ks[1..], seps[1..]);
    assert AllSeparators(seps[0]) && seps[0] != "" && rest[0] == seps[0][0];
    CutAtKey(ks[0], rest);
    assert rest[1..] == seps[0][1..] + Listed(ks[1..], seps[1..]);
  }

  lemma AllNewNext(m: map<string, bool>, ks: seq<string>)
    requires AllNew(m, ks) && ks != []
    ensures |m[ks[0] := false]| == |m| + 1 && AllNew(m[ks[0] := false], ks[1..])
  {
    assert forall i | 0 <= i < |ks[1..]| :: ks[1..][i] == ks[i + 1];
  }

  lemma FoldSkipsRun(m: map<string, bool>, ks: seq<string>, s: string, rest: string)
    requires |m| < MAX_KEYS && Cut(s, 0) == 0 && rest == s[1..] && TakesAll(FoldKeys(m, Pieces(rest)), m, ks, rest)
    ensures TakesAll(FoldKeys(m, Pieces(s)), m, ks, s)
  {
    PiecesCons(s, "", rest);
    FoldSkips(m, Pieces(rest));
    TakesNext(FoldKeys(m, Pieces(rest)), m, ks, s, rest);
  }

  lemma TakesNext(f: Folded, m: map<string, bool>, ks: seq<string>, s: string, rest: string)
    requires Cut(s, 0) >= 0 && rest == s[Cut(s, 0) + 1..] && TakesAll(f, m, ks, rest)
    ensures TakesAll(Next(f), m, ks, s)
  {
    AfterNext(s, f.used);
  }

  lemma FoldTakesKey(m: map<string, bool>, ks: seq<string>, s: string, rest: string)
    requires ks != [] && AllNew(m, ks) && LoadableKey(ks[0])
    requires Cut(s, 0) == |ks[0]| && ks[0] == s[..|ks[0]|] && rest == s[|ks[0]| + 1..]
    requires |m[ks[0] := false]| == |m| + 1
    requires TakesAll(FoldKeys(m[ks[0] := false], Pieces(rest)), m[ks[0] := false], ks[1..], rest)
    ensures TakesAll(FoldKeys(m, Pieces(s)), m, ks, s)
  {
    PiecesCons(s, ks[0], rest);
    FoldTakes(m, ks[0], Pieces(rest));
    AfterNext(s, FoldKeys(m[ks[0] := false], Pieces(rest)).used);
  }

  /** A text of new keys that fit, with any separators between them, is loaded completely: what is left
      holds no key, and nothing else changes. */
  lemma LoadAll(st: Store, run: string, ks: seq<string>, seps: seq<string>)
    requires Inv(st) && AllNew(Table(st), ks) && |ks| == |seps| && Separating(seps) && AllSeparators(run)
    ensures var l := Load(st, run + Listed(ks, seps));
            && l.ok && Inv(l.st) && Table(l.st) == With(Table(st), ks) && AllSeparators(l.rest)
            && (|Table(st)| + |ks| < MAX_KEYS ==> l.rest == "")
  {
    assert '\0' !in SEPARATORS;
    ListedNoNul(ks, seps);
    FoldListed(Table(st), run, ks, seps);
    LoadIsFold(st, run + Listed(ks, seps));
  }

  /** A key that contains the word error is stored although the loading reports an error. */
  lemma ErrorWordStored()
    ensures var l := Load(Clear(), "errors\n");
            !l.ok && l.rest == "errors\n" && Inv(l.st) && Table(l.st) == map["errors" := false]
  {
    var s := "errors\n";
    assert Entries(Clear()) == [];
    assert Cut(s, 6) == 6 && Cut(s, 5) == 6 && Cut(s, 4) == 6 && Cut(s, 3) == 6 && Cut(s, 2) == 6 && Cut(s, 1) == 6;
    assert s[..6] == "errors";
    assert "errors"[0..5] == "error";
    LoadStep(Clear(), "errors");
  }
}
