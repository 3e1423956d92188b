// The flow table shared by all CPUs: a lookup, then a create on miss, interleaved with
// the steps of other CPUs and with timer deletions.

module FlowTable {
  import opened Wrappers

  type Key = seq<bv8>

  datatype EntryAction = NoActionEntry | CtFlowMissEntry

  /** bpf_p4tc_tbl_read: an entry, or the default action on a miss; the kernel may also
      answer with nothing at all. */
  function Reply(entries: seq<Key>, key: Key, answers: bool): Option<EntryAction> {
    if !answers then None else if key in entries then Some(NoActionEntry) else Some(CtFlowMissEntry)
  }

  /** bpf_p4tc_entry_create_on_miss: refused for a key that is there, and may fail. */
  function Created(entries: seq<Key>, key: Key, ok: bool): (r: seq<Key>)
    ensures |r| >= |entries|
  {
    if ok && key !in entries then entries + [key] else entries
  }

  function Without(entries: seq<Key>, key: Key): (r: seq<Key>)
    ensures |r| <= |entries|
  {
    if entries == [] then []
    else
      var init, last := entries[..|entries| - 1], entries[|entries| - 1];
      Without(init, key) + if last == key then [] else [last]
  }

  class KernelTable {
    var entries: seq<Key>

    constructor ()
      ensures entries == []
    {
      entries := [];
    }

    method Read(key: Key, answers: bool) returns (value: Option<EntryAction>)
      ensures value == Reply(entries, key, answers)
    {
      value := Reply(entries, key, answers);
    }

    method CreateOnMiss(key: Key, ok: bool)
      modifies this
      ensures entries == Created(old(entries), key, ok)
    {
      entries := Created(entries, key, ok);
    }
  }

  // ---- the table under any interleaving ----

  /** One step of one CPU, or a timer deletion. */
  datatype Event =
    | Lookup(cpu: nat, key: Key, answers: bool)
    | Create(cpu: nat, key: Key, ok: bool)
    | Delete(key: Key)

  /** A CPU with a pending key has seen a miss and has not created the entry yet. */
  datatype State = State(entries: seq<Key>, pending: map<nat, Key>, creates: nat, removed: nat)

  const Empty := State([], map[], 0, 0)

  predicate Enabled(s: State, e: Event) {
    match e
    case Lookup(cpu, _, _) => cpu !in s.pending
    case Create(cpu, key, _) => cpu in s.pending && s.pending[cpu] == key
    case Delete(_) => true
  }

  function Step(s: State, e: Event): State
    requires Enabled(s, e)
  {
    match e
    case Lookup(cpu, key, answers) =>
      if Reply(s.entries, key, answers) == Some(CtFlowMissEntry) then s.(pending := s.pending[cpu := key]) else s
    case Create(cpu, key, ok) =>
      var after := Created(s.entries, key, ok);
      s.(entries := after, pending := s.pending - {cpu}, creates := s.creates + (|after| - |s.entries|))
    case Delete(key) =>
      var after := Without(s.entries, key);
      s.(entries := after, removed := s.removed + (|s.entries| - |after|))
  }

  /** The state after a run from the empty table, if every step could be taken. */
  function Run(es: seq<Event>): Option<State> {
    if es == [] then Some(Empty) else
    match Run(es[..|es| - 1])
    case None => None
    case Some(s) => if Enabled(s, es[|es| - 1]) then Some(Step(s, es[|es| - 1])) else None
  }

  ghost predicate NoDuplicates<T>(s: seq<T>) {
    forall i, j :: 0 <= i < j < |s| ==> s[i] != s[j]
  }

  /** The keys of the packets processed so far. */
  function LookedUp(es: seq<Event>): set<Key> {
    if es == [] then {} else
    var e := es[|es| - 1];
    LookedUp(es[..|es| - 1]) + if e.Lookup? then {e.key} else {}
  }

  ghost predicate TableInvariant(s: State, seen: set<Key>) {
    && NoDuplicates(s.entries)
    && (forall key :: key in s.entries ==> key in seen)
    && s.pending.Values <= seen
    && s.creates == |s.entries| + s.removed
  }

  lemma {:induction false} WithoutKeeps(entries: seq<Key>, key: Key)
    ensures forall k :: k in Without(entries, key) <==> k in entries && k != key
    ensures NoDuplicates(entries) ==> NoDuplicates(Without(entries, key))
  {
    if entries != [] {
      var init, last := entries[..|entries| - 1], entries[|entries| - 1];
      WithoutKeeps(init, key);
      assert entries == init + [last];
      if NoDuplicates(entries) {
        assert forall i :: 0 <= i < |init| ==> init[i] == entries[i];
        assert last !in Without(init, key);
      }
    }
  }

  lemma StepKeepsInvariant(s: State, e: Event, seen: set<Key>)
    requires Enabled(s, e) && TableInvariant(s, seen)
    ensures TableInvariant(Step(s, e), seen + if e.Lookup? then {e.key} else {})
  {
    match e
    case Lookup(cpu, key, answers) =>
    case Create(cpu, key, ok) =>
      assert s.pending[cpu] in seen;
      assert forall k :: k in Step(s, e).entries ==> k in s.entries || k == key;
    case Delete(key) =>
      WithoutKeeps(s.entries, key);
  }

  /** Whatever the CPUs and timers do in whatever order, and whichever kernel calls fail:
      every table key is the key of a processed packet, none appears twice, and the entries
      are those created and not removed. */
  lemma {:induction false} AnyInterleaving(es: seq<Event>)
    requires Run(es).Some?
    ensures TableInvariant(Run(es).value, LookedUp(es))
  {
    if es != [] {
      var init := es[..|es| - 1];
      AnyInterleaving(init);
      StepKeepsInvariant(Run(init).value, es[|es| - 1], LookedUp(init));
    }
  }

  // ---- keys that nothing removes ----

  predicate Disturbs(e: Event, key: Key) {
    match e
    case Lookup(_, k, answers) => k == key && !answers
    case Create(_, k, ok) => k == key && !ok
    case Delete(k) => k == key
  }

  /** No deletion, failed create or missing answer concerns this key. */
  predicate Undisturbed(es: seq<Event>, key: Key) {
    forall e :: e in es ==> !Disturbs(e, key)
  }

  ghost predicate Known(s: State, key: Key) {
    key in s.entries || key in s.pending.Values
  }

  lemma StepKeepsKnown(s: State, e: Event, key: Key)
    requires Enabled(s, e) && Undisturbed([e], key)
    ensures Known(Step(s, e), key) <==> Known(s, key) || (e.Lookup? && e.key == key)
  {
    assert e in [e];
    var t := Step(s, e);
    match e
    case Lookup(cpu, k, answers) =>
      if t != s {
        assert t.pending[cpu] == k;
        assert forall c :: c in s.pending ==> t.pending[c] == s.pending[c];
        assert forall c :: c in t.pending && c != cpu ==> s.pending[c] == t.pending[c];
      }
    case Create(cpu, k, ok) =>
      assert forall c :: c in t.pending ==> t.pending[c] == s.pending[c];
      assert forall c :: c in s.pending && c != cpu ==> t.pending[c] == s.pending[c];
      assert k == key ==> key in t.entries;
    case Delete(k) =>
      WithoutKeeps(s.entries, k);
  }

  /** An undisturbed key is in the table, or about to be, exactly when a packet had it. */
  lemma {:induction false} KeyIsKept(es: seq<Event>, key: Key)
    requires Run(es).Some? && Undisturbed(es, key)
    ensures Known(Run(es).value, key) <==> key in LookedUp(es)
  {
    if es != [] {
      var init, e := es[..|es| - 1], es[|es| - 1];
      assert forall x :: x in init || x in [e] ==> x in es;
      KeyIsKept(init, key);
      StepKeepsKnown(Run(init).value, e, key);
    }
  }

  lemma {:induction false} DistinctCount<T>(s: seq<T>, elements: set<T>)
    requires NoDuplicates(s) && forall x :: x in elements <==> x in s
    ensures |elements| == |s|
  {
    if s == [] {
      assert elements == {};
    } else {
      var init, last := s[..|s| - 1], s[|s| - 1];
      assert s == init + [last] && last !in init;
      DistinctCount(init, elements - {last});
    }
  }

  /** Without deletions and failures, on any number of CPUs: once no create is pending, the
      table is the set of keys seen, and each was created once. */
  lemma QuietTable(es: seq<Event>)
    requires Run(es).Some? && Run(es).value.pending == map[]
    requires forall key :: Undisturbed(es, key)
    ensures var s := Run(es).value;
      (forall key :: key in s.entries <==> key in LookedUp(es)) && s.creates == |LookedUp(es)|
  {
    var s := Run(es).value;
    AnyInterleaving(es);
    forall key ensures key in s.entries <==> key in LookedUp(es) {
      KeyIsKept(es, key);
    }
    DistinctCount(s.entries, LookedUp(es));
    NothingRemoved(es);
  }

  lemma {:induction false} NothingRemoved(es: seq<Event>)
    requires Run(es).Some?
    requires forall key :: Undisturbed(es, key)
    ensures Run(es).value.removed == 0
  {
    if es != [] {
      var init, e := es[..|es| - 1], es[|es| - 1];
      forall key ensures Undisturbed(init, key) {
        assert Undisturbed(es, key);
        assert forall x :: x in init ==> x in es;
      }
      NothingRemoved(init);
      var key := if e.Delete? then e.key else [];
      assert Undisturbed(es, key) && e in es;
    }
  }

  // ---- one packet after the other ----

  /** What one packet does to the table when nothing comes in between. */
  function TrackOne(entries: seq<Key>, key: Key, answers: bool, ok: bool): seq<Key> {
    if Reply(entries, key, answers) == Some(CtFlowMissEntry) then Created(entries, key, ok) else entries
  }

  /** That is a lookup step followed, on a miss, by the create step of the same CPU. */
  lemma TrackOneIsTwoSteps(s: State, cpu: nat, key: Key, answers: bool, ok: bool)
    requires cpu !in s.pending
    ensures var t, create := Step(s, Lookup(cpu, key, answers)), Create(cpu, key, ok);
      var entries := TrackOne(s.entries, key, answers, ok);
      if cpu !in t.pending then t == s && entries == s.entries
      else Enabled(t, create) && Step(t, create).entries == entries && Step(t, create).pending == s.pending
  {
    var t := Step(s, Lookup(cpu, key, answers));
    if cpu in t.pending {
      assert t.pending - {cpu} == s.pending;
    }
  }

  function Track(keys: seq<Key>): seq<Key> {
    if keys == [] then [] else TrackOne(Track(keys[..|keys| - 1]), keys[|keys| - 1], true, true)
  }

  /** Every element where it occurs first. */
  function FirstOccurrences<T(==)>(s: seq<T>): seq<T> {
    if s == [] then [] else
    var init, last := s[..|s| - 1], s[|s| - 1];
    FirstOccurrences(init) + if last in init then [] else [last]
  }

  lemma {:induction false} FirstOccurrencesKeeps<T>(s: seq<T>)
    ensures NoDuplicates(FirstOccurrences(s))
    ensures forall x :: x in FirstOccurrences(s) <==> x in s
  {
    if s != [] {
      var init := s[..|s| - 1];
      FirstOccurrencesKeeps(init);
      assert s == init + [s[|s| - 1]];
    }
  }

  lemma FirstOccurrencesCount<T>(s: seq<T>, elements: set<T>)
    requires forall x :: x in elements <==> x in s
    ensures |FirstOccurrences(s)| == |elements|
  {
    FirstOccurrencesKeeps(s);
    DistinctCount(FirstOccurrences(s), elements);
  }

  /** Sequentially the table lists the keys seen, in the order of their first packets. */
  lemma {:induction false} TrackedInOrder(keys: seq<Key>)
    ensures Track(keys) == FirstOccurrences(keys)
  {
    if keys != [] {
      var init := keys[..|keys| - 1];
      TrackedInOrder(init);
      FirstOccurrencesKeeps(init);
    }
  }

  function Mapped<S, T>(f: S -> T, s: seq<S>): (r: seq<T>)
    ensures |r| == |s| && forall i :: 0 <= i < |s| ==> r[i] == f(s[i])
  {
    seq(|s|, i requires 0 <= i < |s| => f(s[i]))
  }

  lemma {:induction false} FirstOccurrencesMapped<S, T>(f: S -> T, s: seq<S>)
    requires forall x, y :: x in s && y in s && f(x) == f(y) ==> x == y
    ensures FirstOccurrences(Mapped(f, s)) == Mapped(f, FirstOccurrences(s))
  {
    if s != [] {
      var init, last := s[..|s| - 1], s[|s| - 1];
      assert forall x :: x in init ==> x in s;
      FirstOccurrencesMapped(f, init);
      assert Mapped(f, s)[..|s| - 1] == Mapped(f, init);
      MappedContains(f, init, last);
    }
  }

  lemma MappedContains<S, T>(f: S -> T, s: seq<S>, x: S)
    requires forall y :: y in s && f(x) == f(y) ==> x == y
    ensures f(x) in Mapped(f, s) <==> x in s
  {
    if x in s {
      var i :| 0 <= i < |s| && s[i] == x;
      assert Mapped(f, s)[i] == f(x);
    }
  }
}
