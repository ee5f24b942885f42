/** The attribute patcher of patcher.py. Objects and the values their
    attributes hold are named by identities; the attributes of all objects
    form one store from (object, attribute name) to value. A patcher keeps
    a log of (attribute, value before the patch) entries and, optionally, a
    target module whose entries holding the patched value are patched too. */
module Patcher {
  import opened Results

  type ObjectId = nat

  /** The identity of the object an attribute refers to; `is` compares these. */
  type Value = nat

  datatype Attr = Attr(target: ObjectId, name: string)

  type Store = map<Attr, Value>

  datatype Entry = Entry(attr: Attr, before: Value)

  datatype Patcher = Patcher(log: seq<Entry>, targetModule: Option<ObjectId>)

  /** `getattr` on a missing attribute. */
  datatype PatchError = AttributeError(attr: Attr)

  /** `Patcher.__init__`: nothing patched yet. */
  function NewPatcher(targetModule: Option<ObjectId>): (p: Patcher)
    ensures p.log == [] && p.targetModule == targetModule
  {
    Patcher([], targetModule)
  }

  /** The keys of a dictionary in iteration order: no name comes twice. */
  predicate DictKeys(names: seq<string>) {
    forall i, j :: 0 <= i < j < |names| ==> names[i] != names[j]
  }

  /** The module entries `names` (in dictionary iteration order) of module
      `m` that hold `prior` when their turn comes are set to `replacement`,
      each logged with its prior value, as the nested `patch` calls do. */
  function PatchEntries(store: Store, log: seq<Entry>, m: ObjectId, names: seq<string>, prior: Value, replacement: Value)
    : (r: (Store, seq<Entry>))
    requires DictKeys(names)
    ensures r.0.Keys == store.Keys
    ensures forall a :: a in store ==>
      r.0[a] == (if a.target == m && a.name in names && store[a] == prior then replacement else store[a])
    ensures |log| <= |r.1| && r.1[..|log|] == log
    ensures forall i :: |log| <= i < |r.1| ==> r.1[i].attr in store && r.1[i].attr.target == m && r.1[i].before == prior
    ensures forall a :: a in store && a.target == m && a.name in names && store[a] == prior ==>
      exists i :: |log| <= i < |r.1| && r.1[i].attr == a
    decreases |names|
  {
    if |names| == 0 then (store, log)
    else
      var a := Attr(m, names[0]);
      if a in store && store[a] == prior then
        var r := PatchEntries(store[a := replacement], log + [Entry(a, prior)], m, names[1..], prior, replacement);
        assert r.1[|log|] == (log + [Entry(a, prior)])[|log|];
        r
      else
        PatchEntries(store, log, m, names[1..], prior, replacement)
  }

  /** `Patcher.patch`: replaces `target.name` by `replacement`, logging the
      prior value first; with a target module other than `target`, every
      module entry identical to the prior value is patched as well.
      `moduleNames` is the iteration order of the module's dictionary. */
  function Patch(p: Patcher, store: Store, target: ObjectId, name: string, replacement: Value, moduleNames: seq<string>)
    : (res: Result<(Patcher, Store), PatchError>)
    requires DictKeys(moduleNames)
    ensures res.Err? <==> Attr(target, name) !in store
    ensures res.Err? ==> res.error == AttributeError(Attr(target, name))
    ensures res.Ok? ==> var (p', store') := res.value;
      && p'.targetModule == p.targetModule
      && store'.Keys == store.Keys
      && store'[Attr(target, name)] == replacement
      && |p.log| < |p'.log|
      && p'.log[..|p.log| + 1] == p.log + [Entry(Attr(target, name), store[Attr(target, name)])]
  {
    var a := Attr(target, name);
    if a !in store then Err(AttributeError(a))
    else
      var prior := store[a];
      var store1, log1 := store[a := replacement], p.log + [Entry(a, prior)];
      if p.targetModule.Some? && p.targetModule.value != target then
        var r := PatchEntries(store1, log1, p.targetModule.value, moduleNames, prior, replacement);
        assert r.1[..|p.log| + 1] == log1 by {
          assert r.1[..|log1|] == log1;
        }
        Ok((p.(log := r.1), r.0))
      else
        Ok((p.(log := log1), store1))
  }

  /** With a target module, the patch reaches exactly the module entries
      that held the prior value, logs each of them, and leaves every other
      attribute alone. */
  lemma PatchReachesModule(p: Patcher, store: Store, target: ObjectId, name: string, replacement: Value, moduleNames: seq<string>)
    requires DictKeys(moduleNames)
    requires Attr(target, name) in store
    requires p.targetModule.Some? && p.targetModule.value != target
    ensures var prior := store[Attr(target, name)];
      var m := p.targetModule.value;
      var (p', store') := Patch(p, store, target, name, replacement, moduleNames).value;
      && (forall a :: a in store && a.target == m && a.name in moduleNames && store[a] == prior ==>
            store'[a] == replacement && exists i :: |p.log| < i < |p'.log| && p'.log[i].attr == a)
      && (forall a :: a in store && a != Attr(target, name) && !(a.target == m && a.name in moduleNames && store[a] == prior) ==>
            store'[a] == store[a])
  {
  }

  /** Without a target module (or when patching the module itself) only
      `target.name` changes. */
  lemma PatchWithoutModule(p: Patcher, store: Store, target: ObjectId, name: string, replacement: Value, moduleNames: seq<string>)
    requires DictKeys(moduleNames)
    requires Attr(target, name) in store
    requires p.targetModule.None? || p.targetModule.value == target
    ensures var (p', store') := Patch(p, store, target, name, replacement, moduleNames).value;
      && p'.log == p.log + [Entry(Attr(target, name), store[Attr(target, name)])]
      && store' == store[Attr(target, name) := replacement]
  {
  }

  /** Writes the logged prior values back, the newest entry first: the
      attributes afterwards are those there were and those the log names. */
  function Restore(store: Store, log: seq<Entry>): (r: Store)
    ensures forall a :: a in r <==> a in store || Logged(log, a)
    decreases |log|
  {
    if |log| == 0 then store
    else
      var e := log[|log| - 1];
      var init := log[..|log| - 1];
      assert forall a :: Logged(log, a) <==> Logged(init, a) || a == e.attr by {
        forall a | Logged(init, a)
          ensures Logged(log, a)
        {
          var i :| 0 <= i < |init| && init[i].attr == a;
          assert log[i] == init[i];
        }
        assert log[|log| - 1].attr == e.attr;
      }
      Restore(store[e.attr := e.before], init)
  }

  /** `Patcher.unpatch`; the log is kept. */
  function Unpatch(p: Patcher, store: Store): (r: Store)
    ensures forall a :: a in store ==> a in r
  {
    Restore(store, p.log)
  }

  predicate Logged(log: seq<Entry>, a: Attr) {
    exists i :: 0 <= i < |log| && log[i].attr == a
  }

  /** Because the log is replayed backwards, an attribute ends up with the
      prior value of its EARLIEST log entry, and an attribute the log does
      not mention keeps its value. */
  lemma RestoreFirstWins(store: Store, log: seq<Entry>, a: Attr)
    ensures !Logged(log, a) && a in store ==> a in Restore(store, log) && Restore(store, log)[a] == store[a]
    ensures forall i :: 0 <= i < |log| && log[i].attr == a && (forall j :: 0 <= j < i ==> log[j].attr != a) ==>
      a in Restore(store, log) && Restore(store, log)[a] == log[i].before
  {
    if !Logged(log, a) && a in store {
      RestoreUnlogged(store, log, a);
    }
    forall i | 0 <= i < |log| && log[i].attr == a && (forall j :: 0 <= j < i ==> log[j].attr != a)
      ensures a in Restore(store, log) && Restore(store, log)[a] == log[i].before
    {
      RestoreEarliest(store, log, a, i);
    }
  }

  lemma {:induction false} RestoreUnlogged(store: Store, log: seq<Entry>, a: Attr)
    requires !Logged(log, a) && a in store
    ensures a in Restore(store, log) && Restore(store, log)[a] == store[a]
    decreases |log|
  {
    if |log| > 0 {
      var n := |log| - 1;
      var e, init := log[n], log[..n];
      assert e.attr != a;
      forall k | 0 <= k < |init|
        ensures init[k].attr != a
      {
        assert init[k] == log[k];
      }
      RestoreUnlogged(store[e.attr := e.before], init, a);
    }
  }

  lemma {:induction false} RestoreEarliest(store: Store, log: seq<Entry>, a: Attr, i: nat)
    requires i < |log| && log[i].attr == a
    requires forall j :: 0 <= j < i ==> log[j].attr != a
    ensures a in Restore(store, log) && Restore(store, log)[a] == log[i].before
    decreases |log|
  {
    var n := |log| - 1;
    var e, init := log[n], log[..n];
    var store' := store[e.attr := e.before];
    assert Restore(store, log) == Restore(store', init);
    if i < n {
      forall j | 0 <= j < i
        ensures init[j].attr != a
      {
        assert init[j] == log[j];
      }
      assert init[i] == log[i];
      RestoreEarliest(store', init, a, i);
    } else {
      forall k | 0 <= k < |init|
        ensures init[k].attr != a
      {
        assert init[k] == log[k];
      }
      RestoreUnlogged(store', init, a);
    }
  }

  /** `store` is what `s0` became under the patches recorded in `log`:
      the same attributes, only logged ones changed, and unpatching
      gives `s0` back. */
  predicate Tracks(log: seq<Entry>, store: Store, s0: Store) {
    && store.Keys == s0.Keys
    && (forall i :: 0 <= i < |log| ==> log[i].attr in s0)
    && (forall a :: a in s0 && !Logged(log, a) ==> store[a] == s0[a])
    && Restore(store, log) == s0
  }

  /** A new patcher tracks the store it starts from. */
  lemma NewPatcherTracks(targetModule: Option<ObjectId>, s0: Store)
    ensures Tracks(NewPatcher(targetModule).log, s0, s0)
  {
  }

  /** One logged `setattr` keeps the tracking. */
  lemma SetOneTracks(log: seq<Entry>, store: Store, s0: Store, a: Attr, v: Value)
    requires Tracks(log, store, s0)
    requires a in store
    ensures Tracks(log + [Entry(a, store[a])], store[a := v], s0)
  {
    var log' := log + [Entry(a, store[a])];
    assert log'[..|log|] == log;
    assert store[a := v][a := store[a]] == store;
    forall b | b in s0 && !Logged(log', b)
      ensures store[a := v][b] == s0[b]
    {
      forall k | 0 <= k < |log|
        ensures log[k].attr != b
      {
        assert log'[k] == log[k];
      }
      assert log'[|log|].attr == a;
    }
  }

  lemma {:induction false} PatchEntriesTracks(log: seq<Entry>, store: Store, s0: Store, m: ObjectId, names: seq<string>, prior: Value, replacement: Value)
    requires DictKeys(names)
    requires Tracks(log, store, s0)
    ensures var r := PatchEntries(store, log, m, names, prior, replacement); Tracks(r.1, r.0, s0)
    decreases |names|
  {
    if |names| > 0 {
      var a := Attr(m, names[0]);
      if a in store && store[a] == prior {
        SetOneTracks(log, store, s0, a, replacement);
        PatchEntriesTracks(log + [Entry(a, prior)], store[a := replacement], s0, m, names[1..], prior, replacement);
      } else {
        PatchEntriesTracks(log, store, s0, m, names[1..], prior, replacement);
      }
    }
  }

  /** Every successful patch keeps the tracking. */
  lemma PatchTracks(p: Patcher, store: Store, s0: Store, target: ObjectId, name: string, replacement: Value, moduleNames: seq<string>)
    requires DictKeys(moduleNames)
    requires Tracks(p.log, store, s0)
    ensures var res := Patch(p, store, target, name, replacement, moduleNames);
      res.Ok? ==> Tracks(res.value.0.log, res.value.1, s0)
  {
    var a := Attr(target, name);
    if a in store {
      SetOneTracks(p.log, store, s0, a, replacement);
      if p.targetModule.Some? && p.targetModule.value != target {
        PatchEntriesTracks(p.log + [Entry(a, store[a])], store[a := replacement], s0, p.targetModule.value, moduleNames, store[a], replacement);
      }
    }
  }

  /** After any patches made since construction, `unpatch` puts every
      patched attribute back to its pre-patch value and leaves the others
      as they are: the whole store returns to its starting state. */
  lemma UnpatchRestores(p: Patcher, store: Store, s0: Store)
    requires Tracks(p.log, store, s0)
    ensures Unpatch(p, store) == s0
    ensures forall a :: a in s0 && !Logged(p.log, a) ==> store[a] == s0[a]
  {
  }

  /** Two stores that agree off the log unpatch to the same store. */
  lemma {:induction false} RestoreOffLog(t: Store, u: Store, log: seq<Entry>)
    requires t.Keys == u.Keys
    requires forall i :: 0 <= i < |log| ==> log[i].attr in t
    requires forall a :: a in t && !Logged(log, a) ==> t[a] == u[a]
    ensures Restore(t, log) == Restore(u, log)
    decreases |log|
  {
    if |log| > 0 {
      var n := |log| - 1;
      var e := log[n];
      var init := log[..n];
      var t', u' := t[e.attr := e.before], u[e.attr := e.before];
      forall a | a in t' && !Logged(init, a)
        ensures t'[a] == u'[a]
      {
        if a != e.attr {
          forall k | 0 <= k < |log|
            ensures log[k].attr != a
          {
            if k < n {
              assert init[k] == log[k];
            }
          }
        }
      }
      RestoreOffLog(t', u', init);
    }
  }

  /** `unpatch` keeps the log, so unpatching a second time changes nothing. */
  lemma UnpatchTwice(p: Patcher, store: Store, s0: Store)
    requires Tracks(p.log, store, s0)
    ensures Unpatch(p, Unpatch(p, store)) == Unpatch(p, store)
  {
    RestoreOffLog(s0, store, p.log);
  }

  /** The unit test's double patch: patching one attribute twice and
      unpatching gives back the original value, not the first replacement. */
  lemma PatchTwiceThenUnpatch(s0: Store, target: ObjectId, name: string, first: Value, second: Value, moduleNames: seq<string>)
    requires DictKeys(moduleNames)
    requires Attr(target, name) in s0
    ensures var p0 := NewPatcher(None);
      var r1 := Patch(p0, s0, target, name, first, moduleNames);
      var r2 := Patch(r1.value.0, r1.value.1, target, name, second, moduleNames);
      && r2.Ok?
      && r2.value.1[Attr(target, name)] == second
      && Unpatch(r2.value.0, r2.value.1)[Attr(target, name)] == s0[Attr(target, name)]
  {
    var p0 := NewPatcher(None);
    NewPatcherTracks(None, s0);
    PatchTracks(p0, s0, s0, target, name, first, moduleNames);
    var r1 := Patch(p0, s0, target, name, first, moduleNames);
    PatchTracks(r1.value.0, r1.value.1, s0, target, name, second, moduleNames);
    var r2 := Patch(r1.value.0, r1.value.1, target, name, second, moduleNames);
    UnpatchRestores(r2.value.0, r2.value.1, s0);
  }
}
