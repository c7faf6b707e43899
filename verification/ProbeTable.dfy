/** The open-addressing table of cs/hash.c as a value: linear probing with a cyclic wrap. */
module ProbeTable {
  import opened Wrappers
  import opened Cyclic

  /** One slot. v == None is the NULL value of a free slot, whose key is then meaningless: creation
      leaves it unset and a reset leaves the old one behind. */
  datatype Entry<V> = Entry(k: int, v: Option<V>) {
    predicate Live() { v.Some? }
    /** The probe steps over this slot. */
    predicate Passes(key: int) { Live() && k != key }
  }

  /** The key's first slot. The remainder here is never negative; for which keys that is also what C's
      operator yields is the business of the code that calls it. */
  function Home(key: int, n: nat): (h: nat)
    requires 0 < n
    ensures h < n
  {
    key % n
  }

  /** The slot the probe inspects after d steps. */
  function Slot(n: nat, key: int, d: nat): (i: nat)
    requires d < n
    ensures i < n
  {
    At(Home(key, n), d, n)
  }

  /** The probe loop from its d-th step on. */
  function ProbeFrom<V>(t: seq<Entry<V>>, key: int, d: nat): (i: nat)
    requires d < |t|
    ensures i < |t|
    decreases |t| - d
  {
    var i := Slot(|t|, key, d);
    if t[i].k == key || !t[i].Live() || d + 1 == |t| then i else ProbeFrom(t, key, d + 1)
  }

  function FindEntry<V>(t: seq<Entry<V>>, key: int): (i: nat)
    requires 0 < |t|
    ensures i < |t|
  {
    ProbeFrom(t, key, 0)
  }

  function Get<V>(t: seq<Entry<V>>, key: int): Option<V>
    requires 0 < |t|
  {
    t[FindEntry(t, key)].v
  }

  function Insert<V>(t: seq<Entry<V>>, key: nat, value: V): (u: seq<Entry<V>>)
    requires 0 < |t|
    ensures |u| == |t|
  {
    t[FindEntry(t, key) := Entry(key, Some(value))]
  }

  function Reset<V>(t: seq<Entry<V>>): (u: seq<Entry<V>>)
    ensures |u| == |t|
  {
    seq(|t|, i requires 0 <= i < |t| => t[i].(v := None))
  }

  // ----- what a table means

  ghost predicate Full<V>(t: seq<Entry<V>>) {
    forall i | 0 <= i < |t| :: t[i].Live()
  }

  ghost function LiveSlots<V>(t: seq<Entry<V>>): set<int> {
    set i | 0 <= i < |t| && t[i].Live()
  }

  ghost function LiveKeys<V>(t: seq<Entry<V>>): set<int> {
    set i | 0 <= i < |t| && t[i].Live() :: t[i].k
  }

  /** Looking up the key of slot i finds that very slot. */
  ghost predicate Found<V>(t: seq<Entry<V>>, i: int)
    requires 0 <= i < |t|
  {
    0 <= t[i].k && FindEntry(t, t[i].k) == i
  }

  /** The invariant: every live slot is found by its key. */
  ghost predicate Sound<V>(t: seq<Entry<V>>) {
    && 0 < |t|
    && forall i {:trigger Found(t, i)} | 0 <= i < |t| && t[i].Live() :: Found(t, i)
  }

  ghost function LiveValue<V>(t: seq<Entry<V>>, k: int): (v: V)
    requires Sound(t) && k in LiveKeys(t)
    ensures 0 <= k && t[FindEntry(t, k)] == Entry(k, Some(v))
  {
    LiveKeyIsFound(t, k);
    t[FindEntry(t, k)].v.value
  }

  lemma LiveKeyIsFound<V>(t: seq<Entry<V>>, k: int)
    requires Sound(t) && k in LiveKeys(t)
    ensures 0 <= k && t[FindEntry(t, k)].Live() && t[FindEntry(t, k)].k == k
  {
    var i :| 0 <= i < |t| && t[i].Live() && t[i].k == k;
    assert Found(t, i);
  }

  /** The finite map a sound table stands for. */
  ghost function Contents<V>(t: seq<Entry<V>>): (m: map<int, V>)
    requires Sound(t)
    ensures m.Keys == LiveKeys(t)
  {
    map k | k in LiveKeys(t) :: LiveValue(t, k)
  }

  /** The live values, in slot order. */
  function Values<V>(t: seq<Entry<V>>): seq<V> {
    if t == [] then [] else (if t[0].Live() then [t[0].v.value] else []) + Values(t[1..])
  }

  // ----- the probe loop

  /** The probe for key ends after d steps: everything before was passed over. */
  ghost predicate StopsAt<V>(t: seq<Entry<V>>, key: int, d: nat) {
    && d < |t|
    && (forall e: nat | e < d :: t[Slot(|t|, key, e)].Passes(key))
    && (t[Slot(|t|, key, d)].Passes(key) ==> d + 1 == |t|)
  }

  lemma {:induction false} ProbeFromStops<V>(t: seq<Entry<V>>, key: int, b: nat) returns (d: nat)
    requires b < |t| && forall e: nat | e < b :: t[Slot(|t|, key, e)].Passes(key)
    ensures StopsAt(t, key, d) && ProbeFrom(t, key, b) == Slot(|t|, key, d)
    decreases |t| - b
  {
    if t[Slot(|t|, key, b)].Passes(key) && b + 1 < |t| {
      d := ProbeFromStops(t, key, b + 1);
    } else {
      d := b;
    }
  }

  lemma FindEntryStops<V>(t: seq<Entry<V>>, key: int) returns (d: nat)
    requires 0 < |t|
    ensures StopsAt(t, key, d) && FindEntry(t, key) == Slot(|t|, key, d)
  {
    d := ProbeFromStops(t, key, 0);
  }

  lemma StopUnique<V>(t: seq<Entry<V>>, key: int, d: nat)
    requires StopsAt(t, key, d)
    ensures FindEntry(t, key) == Slot(|t|, key, d)
  {
    var d' := FindEntryStops(t, key);
    assert d' <= d || d + 1 == |t|;
  }

  /** How many steps after the home of key slot i is probed. */
  function Distance(n: nat, key: int, i: nat): (d: nat)
    requires i < n
    ensures d < n && Slot(n, key, d) == i
    ensures forall e: nat | e < n && e != d :: Slot(n, key, e) != i
  {
    var h := Home(key, n);
    if h <= i then i - h else i + n - h
  }

  /** Where the loop ends: at the key, at a free slot, or, only when the table is full and the key
      absent, at the slot just before the key's home. */
  lemma FindEntryOutcome<V>(t: seq<Entry<V>>, key: int)
    requires Sound(t)
    ensures var i := FindEntry(t, key);
      && (key in LiveKeys(t) <==> t[i].Live() && t[i].k == key)
      && (key !in LiveKeys(t) && !Full(t) <==> !t[i].Live())
      && (key !in LiveKeys(t) && Full(t) <==> t[i].Passes(key))
      && (key !in LiveKeys(t) && Full(t) ==> i == (Home(key, |t|) + |t| - 1) % |t|)
  {
    var i := FindEntry(t, key);
    var d := FindEntryStops(t, key);
    if key in LiveKeys(t) {
      var j :| 0 <= j < |t| && t[j].Live() && t[j].k == key;
      assert Found(t, j);
    } else if t[i].Live() {
      forall j | 0 <= j < |t| ensures t[j].Live() {
        assert t[Slot(|t|, key, Distance(|t|, key, j))].Passes(key);
      }
      AtIsRemainder(Home(key, |t|), |t| - 1, |t|);
    }
  }

  /** The slot d steps on from the key modulo the size, going round the end. */
  function Numbered(n: nat, key: int, d: nat): (i: nat)
    requires 0 < n
    ensures i < n
  {
    (key % n + d) % n
  }

  /** The slots probed by number: one further each time, up to the first that is free or holds the key,
      or else to the last of them all. */
  lemma FindEntryByNumber<V>(t: seq<Entry<V>>, key: int) returns (d: nat)
    requires 0 < |t|
    ensures d < |t| && FindEntry(t, key) == Numbered(|t|, key, d)
    ensures forall e: nat | e < d :: t[Numbered(|t|, key, e)].Live() && t[Numbered(|t|, key, e)].k != key
    ensures t[FindEntry(t, key)].Live() && t[FindEntry(t, key)].k != key ==> d + 1 == |t|
  {
    d := FindEntryStops(t, key);
    AtIsRemainder(key % |t|, d, |t|);
    forall e: nat | e < d ensures t[Numbered(|t|, key, e)].Live() && t[Numbered(|t|, key, e)].k != key {
      AtIsRemainder(key % |t|, e, |t|);
      assert t[Slot(|t|, key, e)].Passes(key);
    }
  }

  /** Stale keys in free slots do not influence any lookup. */
  lemma StaleKeysAreIrrelevant<V>(t: seq<Entry<V>>, u: seq<Entry<V>>, key: int)
    requires 0 < |t| == |u|
    requires forall i | 0 <= i < |t| :: t[i].v == u[i].v && (t[i].Live() ==> t[i].k == u[i].k)
    ensures FindEntry(t, key) == FindEntry(u, key) && Get(t, key) == Get(u, key)
  {
    var d := FindEntryStops(t, key);
    assert StopsAt(u, key, d);
    StopUnique(u, key, d);
  }

  /** The textbook invariant of linear probing: keys unique, no gap between a key's home and its slot. */
  ghost predicate Chained<V>(t: seq<Entry<V>>) {
    && (forall i | 0 <= i < |t| && t[i].Live() :: 0 <= t[i].k)
    && (forall i, j | 0 <= i < |t| && 0 <= j < |t| && t[i].Live() && t[j].Live() && i != j :: t[i].k != t[j].k)
    && (forall i, d: nat | 0 <= i < |t| && t[i].Live() && 0 <= t[i].k && d < Distance(|t|, t[i].k, i) ::
          t[Slot(|t|, t[i].k, d)].Live())
  }

  lemma SoundIffChained<V>(t: seq<Entry<V>>)
    requires 0 < |t|
    ensures Sound(t) <==> Chained(t)
  {
    if Sound(t) {
      SoundIsChained(t);
    }
    if Chained(t) {
      forall i | 0 <= i < |t| && t[i].Live() ensures Found(t, i) {
        var d := Distance(|t|, t[i].k, i);
        assert StopsAt(t, t[i].k, d);
        StopUnique(t, t[i].k, d);
      }
    }
  }

  lemma SoundIsChained<V>(t: seq<Entry<V>>)
    requires Sound(t)
    ensures Chained(t)
  {
    forall i, j | 0 <= i < |t| && 0 <= j < |t| && t[i].Live() && t[j].Live() && i != j
      ensures t[i].k != t[j].k
    {
      assert Found(t, i) && Found(t, j);
    }
    forall i | 0 <= i < |t| && t[i].Live() ensures 0 <= t[i].k {
      assert Found(t, i);
    }
    forall i, d: nat | 0 <= i < |t| && t[i].Live() && 0 <= t[i].k && d < Distance(|t|, t[i].k, i)
      ensures t[Slot(|t|, t[i].k, d)].Live()
    {
      assert Found(t, i);
      var e := FindEntryStops(t, t[i].k);
    }
  }

  // ----- the operations on the map

  lemma InsertKeepsSound<V>(t: seq<Entry<V>>, key: nat, value: V)
    requires Sound(t)
    ensures Sound(Insert(t, key, value))
  {
    var u := Insert(t, key, value);
    var i := FindEntry(t, key);
    forall j | 0 <= j < |u| && u[j].Live() ensures Found(u, j) {
      assert j != i ==> Found(t, j);
      var d := FindEntryStops(t, u[j].k);
      assert d == Distance(|t|, u[j].k, j);
      assert StopsAt(u, u[j].k, d);
      StopUnique(u, u[j].k, d);
    }
  }

  /** What a lookup answers; only a full table answers for an absent key, and then with the value of
      another one, the one in the slot before the key's first. */
  lemma GetMeaning<V>(t: seq<Entry<V>>, key: int)
    requires Sound(t)
    ensures key in Contents(t) ==> Get(t, key) == Some(Contents(t)[key])
    ensures key !in Contents(t) && !Full(t) ==> Get(t, key) == None
    ensures key !in Contents(t) && Full(t) ==>
      exists other :: other in Contents(t) && other != key && Get(t, key) == Some(Contents(t)[other])
    ensures key !in Contents(t) && Full(t) ==> Get(t, key) == t[(key % |t| + |t| - 1) % |t|].v
  {
    if key !in Contents(t) {
      FindEntryOutcome(t, key);
      if Full(t) {
        LiveSlotInContents(t, FindEntry(t, key));
      }
    }
  }

  lemma LiveSlotInContents<V>(t: seq<Entry<V>>, i: nat)
    requires Sound(t) && i < |t| && t[i].Live()
    ensures t[i].k in Contents(t) && t[i].v == Some(Contents(t)[t[i].k])
  {
    assert Found(t, i);
  }

  /** Insertion is map update; it costs another key its entry exactly when the table is full and
      the key is new, and the victim is then the key held just before the new key's home. */
  lemma InsertMeaning<V>(t: seq<Entry<V>>, key: nat, value: V)
    requires Sound(t)
    ensures Sound(Insert(t, key, value))
    ensures key in Contents(t) || !Full(t) ==>
      Contents(Insert(t, key, value)) == Contents(t)[key := value]
    ensures key !in Contents(t) && Full(t) ==>
      var victim := t[(Home(key, |t|) + |t| - 1) % |t|].k;
      && victim in Contents(t) && victim != key
      && Contents(Insert(t, key, value)) == (Contents(t) - {victim})[key := value]
  {
    InsertKeepsSound(t, key, value);
    InsertContents(t, key, value);
    FindEntryOutcome(t, key);
    var i := FindEntry(t, key);
    if t[i].Live() {
      LiveSlotInContents(t, i);
    }
    if key in Contents(t) {
      assert (Contents(t) - {key})[key := value] == Contents(t)[key := value];
    }
  }

  /** Insert-then-get: the new value is found, always; another key's answer changes only if it lost
      its entry, or was absent and the table has become full. */
  lemma InsertThenGet<V>(t: seq<Entry<V>>, key: nat, value: V, other: nat)
    requires Sound(t) && other != key
    ensures Get(Insert(t, key, value), key) == Some(value)
    ensures other in Contents(t) && (key in Contents(t) || !Full(t)) ==>
      Get(Insert(t, key, value), other) == Get(t, other) == Some(Contents(t)[other])
    ensures other !in Contents(t) && !Full(Insert(t, key, value)) ==>
      Get(Insert(t, key, value), other) == Get(t, other) == None
  {
    var u := Insert(t, key, value);
    InsertMeaning(t, key, value);
    InsertKeepsLive(t, key, value);
    GetMeaning(t, other);
    GetMeaning(u, other);
    GetMeaning(u, key);
  }

  /** After an insertion that cost another key its entry, which of the old keys are answered with the
      new entry: at most the victim, and it exactly when both keys have the same home. */
  lemma NewEntryAnswersFor<V>(t: seq<Entry<V>>, key: nat, value: V, other: int)
    requires Sound(t) && Full(t) && key !in LiveKeys(t) && other in LiveKeys(t)
    ensures var i := FindEntry(t, key);
      FindEntry(Insert(t, key, value), other) == i <==>
        other == t[i].k && Home(other, |t|) == Home(key, |t|)
  {
    var i, u := FindEntry(t, key), Insert(t, key, value);
    FindEntryOutcome(t, key);
    InsertKeepsSound(t, key, value);
    InsertKeepsLive(t, key, value);
    FindEntryOutcome(u, other);
    if other == t[i].k {
      OtherKeysDiffer(t, i);
      JustBefore(Home(other, |t|), Home(key, |t|), |t|);
    } else {
      var j :| 0 <= j < |t| && t[j].Live() && t[j].k == other;
      assert u[j] == t[j];
    }
  }

  lemma OtherKeysDiffer<V>(t: seq<Entry<V>>, i: nat)
    requires Sound(t) && i < |t| && t[i].Live()
    ensures forall j | 0 <= j < |t| && t[j].Live() && j != i :: t[j].k != t[i].k
  {
    SoundIsChained(t);
  }

  lemma JustBefore(g: nat, h: nat, n: nat)
    requires g < n && h < n
    ensures (g + n - 1) % n == (h + n - 1) % n <==> g == h
  {
    AtIsRemainder(g, n - 1, n);
    AtIsRemainder(h, n - 1, n);
  }

  lemma InsertKeepsLive<V>(t: seq<Entry<V>>, key: nat, value: V)
    requires 0 < |t|
    ensures Full(t) ==> Full(Insert(t, key, value))
  {
  }

  /** The key that insertion drives out of its slot, if any. */
  ghost function Displaced<V>(t: seq<Entry<V>>, key: nat): set<int>
    requires 0 < |t|
  {
    var e := t[FindEntry(t, key)];
    if e.Live() then {e.k} else {}
  }

  lemma InsertContents<V>(t: seq<Entry<V>>, key: nat, value: V)
    requires Sound(t) && Sound(Insert(t, key, value))
    ensures Contents(Insert(t, key, value)) == (Contents(t) - Displaced(t, key))[key := value]
  {
    var u := Insert(t, key, value);
    LiveSlotInContents(u, FindEntry(t, key));
    var was, now := Contents(t), Contents(u);
    forall k | k != key
      ensures k in now <==> k in was && k !in Displaced(t, key)
      ensures k in now ==> now[k] == was[k]
    {
      InsertElsewhere(t, key, value, k);
    }
    assert now == (was - Displaced(t, key))[key := value];
  }

  lemma InsertElsewhere<V>(t: seq<Entry<V>>, key: nat, value: V, k: int)
    requires Sound(t) && Sound(Insert(t, key, value)) && k != key
    ensures var was, now := Contents(t), Contents(Insert(t, key, value));
      && (k in now <==> k in was && k !in Displaced(t, key))
      && (k in now ==> now[k] == was[k])
  {
    if k in LiveKeys(Insert(t, key, value)) {
      InsertAddsNoOther(t, key, value, k);
    }
    if k in LiveKeys(t) && k !in Displaced(t, key) {
      InsertSparesOthers(t, key, value, k);
    }
  }

  lemma InsertAddsNoOther<V>(t: seq<Entry<V>>, key: nat, value: V, k: int)
    requires Sound(t) && Sound(Insert(t, key, value)) && k != key
    requires k in LiveKeys(Insert(t, key, value))
    ensures k in Contents(t) && k !in Displaced(t, key)
    ensures Contents(Insert(t, key, value))[k] == Contents(t)[k]
  {
    var u := Insert(t, key, value);
    var i := FindEntry(t, key);
    LiveKeyIsFound(u, k);
    var j := FindEntry(u, k);
    assert j != i && t[j] == u[j];
    assert Found(t, j);
    assert t[i].Live() ==> Found(t, i);
    LiveSlotInContents(t, j);
  }

  lemma InsertSparesOthers<V>(t: seq<Entry<V>>, key: nat, value: V, k: int)
    requires Sound(t) && Sound(Insert(t, key, value)) && k != key
    requires k in LiveKeys(t) && k !in Displaced(t, key)
    ensures k in LiveKeys(Insert(t, key, value))
  {
    var u := Insert(t, key, value);
    LiveKeyIsFound(t, k);
    var j := FindEntry(t, k);
    assert u[j] == t[j];
  }

  lemma ResetMeaning<V>(t: seq<Entry<V>>)
    requires 0 < |t|
    ensures Sound(Reset(t)) && Contents(Reset(t)) == map[] && LiveSlots(Reset(t)) == {} && Values(Reset(t)) == []
    ensures forall i | 0 <= i < |t| :: Reset(t)[i].k == t[i].k
  {
    var u := Reset(t);
    NoLiveValues(u);
    assert LiveKeys(u) == {};
    assert LiveSlots(u) == {};
  }

  lemma NoLiveValues<V>(t: seq<Entry<V>>)
    requires forall i | 0 <= i < |t| :: !t[i].Live()
    ensures Values(t) == []
  {
  }

  // ----- counting

  lemma {:induction false} ImageSize<V>(t: seq<Entry<V>>, s: set<int>)
    requires Sound(t) && s <= LiveSlots(t)
    ensures |set i | i in s :: t[i].k| == |s|
    decreases |s|
  {
    if s == {} {
    } else {
      var x :| x in s;
      var rest := s - {x};
      ImageSize(t, rest);
      var img := set i | i in rest :: t[i].k;
      SoundIsChained(t);
      assert (set i | i in s :: t[i].k) == img + {t[x].k};
    }
  }

  ghost function Below(n: nat): (s: set<int>)
    ensures |s| == n
    ensures forall i :: i in s <==> 0 <= i < n
  {
    if n == 0 then {} else Below(n - 1) + {n - 1}
  }

  lemma SubsetSize(a: set<int>, b: set<int>)
    requires a <= b
    ensures |a| <= |b| && (|a| == |b| ==> a == b)
  {
    assert b == a + (b - a);
  }

  /** As many keys as live slots, never more than slots, and as many as slots exactly when full. */
  lemma ContentsSize<V>(t: seq<Entry<V>>)
    requires Sound(t)
    ensures |Contents(t)| == |LiveSlots(t)| <= |t|
    ensures |LiveSlots(t)| == |t| <==> Full(t)
  {
    CountKeys(t);
    CountSlots(t);
  }

  lemma CountKeys<V>(t: seq<Entry<V>>)
    requires Sound(t)
    ensures |Contents(t)| == |LiveSlots(t)|
  {
    ImageSize(t, LiveSlots(t));
    assert LiveKeys(t) == set i | i in LiveSlots(t) :: t[i].k;
    assert |Contents(t)| == |Contents(t).Keys|;
  }

  lemma CountSlots<V>(t: seq<Entry<V>>)
    ensures |LiveSlots(t)| <= |t|
    ensures |LiveSlots(t)| == |t| <==> Full(t)
  {
    var all := Below(|t|);
    SubsetSize(LiveSlots(t), all);
    if Full(t) {
      assert LiveSlots(t) == all;
    }
    forall i | |LiveSlots(t)| == |t| && 0 <= i < |t| ensures t[i].Live() {
      assert i in all;
    }
  }

  ghost function ToBag<V>(v: Option<V>): multiset<V> {
    if v.Some? then multiset{v.value} else multiset{}
  }

  lemma ValuesSplit<V>(t: seq<Entry<V>>)
    requires t != []
    ensures multiset(Values(t)) == ToBag(t[0].v) + multiset(Values(t[1..]))
  {
  }

  lemma {:induction false} ValuesAfterStore<V>(t: seq<Entry<V>>, i: nat, e: Entry<V>)
    requires i < |t|
    ensures multiset(Values(t[i := e])) + ToBag(t[i].v) == multiset(Values(t)) + ToBag(e.v)
  {
    hide Values, ToBag;
    var u := t[i := e];
    ValuesSplit(t);
    ValuesSplit(u);
    if i == 0 {
      assert u[1..] == t[1..];
    } else {
      ValuesAfterStore(t[1..], i - 1, e);
      assert u[1..] == t[1..][i - 1 := e];
      assert multiset(Values(u)) + ToBag(t[i].v)
          == ToBag(t[0].v) + (multiset(Values(u[1..])) + ToBag(t[1..][i - 1].v));
    }
  }

  lemma {:induction false} ValuesAreLive<V>(t: seq<Entry<V>>, v: V)
    ensures v in Values(t) <==> exists i :: 0 <= i < |t| && t[i].v == Some(v)
  {
    if t == [] {
    } else {
      ValuesAreLive(t[1..], v);
      if v in Values(t[1..]) {
        var i :| 0 <= i < |t[1..]| && t[1..][i].v == Some(v);
        assert t[i + 1].v == Some(v);
      }
      if i :| 0 <= i < |t| && t[i].v == Some(v) {
        assert 0 < i ==> t[1..][i - 1].v == Some(v);
      }
    }
  }
}
