/** Module::AddFunctions: a module keeps the first of the functions that have one address and one name. */
module ModuleFunctions {
  import opened Addresses
  import opened Symbols

  /** What FunctionCompare compares. */
  datatype Key = Key(address: Address, name: string)

  // ---- Entering values under keys, the first under each

  function Enter<V>(m: map<Key, V>, k: Key, v: V): map<Key, V> {
    if k in m then m else m[k := v]
  }

  function EnterAll<V>(m: map<Key, V>, ks: seq<Key>, vs: seq<V>): map<Key, V>
    requires |ks| == |vs|
    decreases |ks|
  {
    if ks == [] then m
    else Enter(EnterAll(m, ks[..|ks| - 1], vs[..|ks| - 1]), ks[|ks| - 1], vs[|ks| - 1])
  }

  /** The values that found their key taken. */
  function Rejected<V>(m: map<Key, V>, ks: seq<Key>, vs: seq<V>): seq<V>
    requires |ks| == |vs|
    decreases |ks|
  {
    if ks == [] then []
    else
      var n := |ks| - 1;
      Rejected(m, ks[..n], vs[..n]) + if ks[n] in EnterAll(m, ks[..n], vs[..n]) then [vs[n]] else []
  }

  /** Each key that was there or came keeps what was there, or else what came first. */
  lemma {:induction false} FirstIsEntered<V>(m: map<Key, V>, ks: seq<Key>, vs: seq<V>)
    requires |ks| == |vs|
    ensures var after := EnterAll(m, ks, vs);
            && (forall k :: k in after <==> k in m || k in ks)
            && (forall k | k in m :: after[k] == m[k])
            && forall i | 0 <= i < |ks| && ks[i] !in m && ks[i] !in ks[..i] :: after[ks[i]] == vs[i]
    decreases |ks|
  {
    if ks != [] {
      var n := |ks| - 1;
      FirstIsEntered(m, ks[..n], vs[..n]);
      assert ks == ks[..n] + [ks[n]];
      var after := EnterAll(m, ks, vs);
      forall i | 0 <= i < |ks| && ks[i] !in m && ks[i] !in ks[..i] ensures after[ks[i]] == vs[i] {
        if i < n { assert ks[..n][i] == ks[i] && ks[..n][..i] == ks[..i]; }
      }
    }
  }

  /** Every value is entered or rejected. */
  lemma {:induction false} NoneIsLost<V>(m: map<Key, V>, ks: seq<Key>, vs: seq<V>)
    requires |ks| == |vs|
    ensures |EnterAll(m, ks, vs)| + |Rejected(m, ks, vs)| == |m| + |vs|
    decreases |ks|
  {
    if ks != [] {
      var n := |ks| - 1;
      NoneIsLost(m, ks[..n], vs[..n]);
      var before := EnterAll(m, ks[..n], vs[..n]);
      if ks[n] !in before { assert before[ks[n] := vs[n]].Keys == before.Keys + {ks[n]}; }
    }
  }

  /** How far entering has come. */
  ghost predicate Entered<V>(m: map<Key, V>, ks: seq<Key>, vs: seq<V>, i: nat, after: map<Key, V>, rejected: seq<V>)
    requires i <= |ks| == |vs|
  {
    after == EnterAll(m, ks[..i], vs[..i]) && rejected == Rejected(m, ks[..i], vs[..i])
  }

  lemma OneMore<V>(m: map<Key, V>, ks: seq<Key>, vs: seq<V>, i: nat, after: map<Key, V>, rejected: seq<V>)
    requires i < |ks| == |vs| && Entered(m, ks, vs, i, after, rejected)
    ensures Entered(m, ks, vs, i + 1, Enter(after, ks[i], vs[i]), rejected + if ks[i] in after then [vs[i]] else [])
  {
    assert ks[..i + 1][..i] == ks[..i] && vs[..i + 1][..i] == vs[..i];
  }

  lemma AllEntered<V>(m: map<Key, V>, ks: seq<Key>, vs: seq<V>, after: map<Key, V>, rejected: seq<V>)
    requires |ks| == |vs| && Entered(m, ks, vs, |ks|, after, rejected)
    ensures after == EnterAll(m, ks, vs) && rejected == Rejected(m, ks, vs)
  {
    assert ks[..|ks|] == ks && vs[..|vs|] == vs;
  }

  function KeyOf(f: Function): Key
  {
    Key(f.address, f.name)
  }

  function KeysOf(functions: seq<Function>): (keys: seq<Key>)
    ensures |keys| == |functions| && forall i | 0 <= i < |keys| :: keys[i] == KeyOf(functions[i])
  {
    if functions == [] then [] else KeysOf(functions[..|functions| - 1]) + [KeyOf(functions[|functions| - 1])]
  }

  class Module {
    var functions: map<Key, Function>
    /** The duplicates that were freed. */
    var deleted: seq<Function>

    constructor ()
      ensures functions == map[] && deleted == []
    {
      functions, deleted := map[], [];
    }

    /** The assertion stops a function without a name, and the program with it. */
    method AddFunction(f: Function) returns (ok: bool)
      modifies this
      ensures ok <==> f.name != ""
      ensures functions == if ok then Enter(old(functions), KeyOf(f), f) else old(functions)
      ensures deleted == old(deleted) + if ok && KeyOf(f) in old(functions) then [f] else []
    {
      if f.name == "" { return false; }
      if KeyOf(f) in functions {
        deleted := deleted + [f];
      } else {
        functions := functions[KeyOf(f) := f];
      }
      return true;
    }

    method AddFunctions(fs: seq<Function>) returns (ok: bool)
      modifies this
      ensures ok <==> forall f | f in fs :: f.name != ""
      ensures ok ==> functions == EnterAll(old(functions), KeysOf(fs), fs)
                     && deleted == old(deleted) + Rejected(old(functions), KeysOf(fs), fs)
    {
      ghost var m, was, keys, rejected := functions, deleted, KeysOf(fs), [];
      for i := 0 to |fs|
        invariant forall j | 0 <= j < i :: fs[j].name != ""
        invariant deleted == was + rejected && Entered(m, keys, fs, i, functions, rejected)
      {
        OneMore(m, keys, fs, i, functions, rejected);
        rejected := rejected + if keys[i] in functions then [fs[i]] else [];
        ok := AddFunction(fs[i]);
        if !ok { return; }
      }
      AllEntered(m, keys, fs, functions, rejected);
      ok := true;
    }
  }
}
