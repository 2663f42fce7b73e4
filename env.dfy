/** The lexical scope as the calling convention uses it: a store of name to
    value bindings and a `Let` primitive that may refuse a binding. The
    refusal policy (for instance, forbidding a redefinition) belongs to the
    scope and is a parameter of the model. */
module Scopes {
  import opened Values

  datatype Binding = Binding(name: string, val: Val)

  /** Decides, from the current bindings, the name and the value, whether a
      `Let` is refused and with which error. */
  type Policy = (map<string, Val>, string, Val) -> Option<Error>

  class Env {
    var vars: map<string, Val>
    const refuse: Policy

    constructor (vars: map<string, Val>, refuse: Policy)
      ensures this.vars == vars && this.refuse == refuse
    {
      this.vars := vars;
      this.refuse := refuse;
    }

    /** Binds `id` to `v` unless the policy refuses; a refused binding leaves
        the scope as it was. */
    method Let(id: string, v: Val) returns (e: Option<Error>)
      modifies this
      ensures e == refuse(old(vars), id, v)
      ensures vars == if e.None? then old(vars)[id := v] else old(vars)
    {
      e := refuse(vars, id, v);
      if e.None? {
        vars := vars[id := v];
      }
    }
  }

  /** The effect of performing the bindings `bs` in order on a scope holding
      `vars`, stopping at the first refusal: the error, if any, and the
      bindings the scope holds afterwards. */
  function LetAll(refuse: Policy, vars: map<string, Val>, bs: seq<Binding>): (Option<Error>, map<string, Val>)
    decreases |bs|
  {
    if bs == [] then (None, vars)
    else match refuse(vars, bs[0].name, bs[0].val)
      case Some(e) => (Some(e), vars)
      case None => LetAll(refuse, vars[bs[0].name := bs[0].val], bs[1..])
  }

  /** The first refused binding decides the outcome. If performing `bs`
      fails, some binding `bs[k]` was refused right after all bindings before
      it succeeded, the error is its refusal and the scope keeps exactly those
      earlier bindings. If it succeeds, no binding was refused. */
  lemma {:induction false} LetAllFirstError(refuse: Policy, vars: map<string, Val>, bs: seq<Binding>)
    ensures var r := LetAll(refuse, vars, bs);
            r.0.Some? ==>
              exists k :: 0 <= k < |bs| && LetAll(refuse, vars, bs[..k]) == (None, r.1)
                          && refuse(r.1, bs[k].name, bs[k].val) == r.0
    ensures var r := LetAll(refuse, vars, bs);
            r.0.None? ==>
              forall k :: 0 <= k < |bs| ==>
                LetAll(refuse, vars, bs[..k]).0.None? &&
                refuse(LetAll(refuse, vars, bs[..k]).1, bs[k].name, bs[k].val).None?
    decreases |bs|
  {
    if bs != [] {
      var b := bs[0];
      assert bs[..0] == [];
      match refuse(vars, b.name, b.val)
      case Some(e) =>
        assert LetAll(refuse, vars, bs[..0]) == (None, vars);
      case None =>
        var vars' := vars[b.name := b.val];
        LetAllFirstError(refuse, vars', bs[1..]);
        forall k | 1 <= k <= |bs|
          ensures LetAll(refuse, vars, bs[..k]) == LetAll(refuse, vars', bs[1..][..k - 1])
        {
          assert bs[..k][0] == b && bs[..k][1..] == bs[1..][..k - 1];
        }
        var r := LetAll(refuse, vars, bs);
        if r.0.Some? {
          var k :| 0 <= k < |bs[1..]| && LetAll(refuse, vars', bs[1..][..k]) == (None, r.1)
                   && refuse(r.1, bs[1..][k].name, bs[1..][k].val) == r.0;
          assert LetAll(refuse, vars, bs[..k + 1]) == (None, r.1);
        } else {
          forall k | 0 <= k < |bs|
            ensures LetAll(refuse, vars, bs[..k]).0.None?
            ensures refuse(LetAll(refuse, vars, bs[..k]).1, bs[k].name, bs[k].val).None?
          {
            if k > 0 {
              assert bs[k] == bs[1..][k - 1];
            }
          }
        }
    }
  }

  /** Under a policy that never refuses, every binding is performed and a
      name bound once holds its value afterwards. */
  lemma {:induction false} LetAllPermissive(refuse: Policy, vars: map<string, Val>, bs: seq<Binding>)
    requires forall m, n, v :: refuse(m, n, v).None?
    ensures LetAll(refuse, vars, bs).0.None?
    ensures forall b :: b in bs ==> b.name in LetAll(refuse, vars, bs).1
    ensures forall k :: 0 <= k < |bs| && (forall j :: 0 <= j < |bs| && j != k ==> bs[j].name != bs[k].name) ==>
              bs[k].name in LetAll(refuse, vars, bs).1 && LetAll(refuse, vars, bs).1[bs[k].name] == bs[k].val
    decreases |bs|
  {
    if bs != [] {
      var vars' := vars[bs[0].name := bs[0].val];
      LetAllPermissive(refuse, vars', bs[1..]);
      var r := LetAll(refuse, vars, bs);
      assert r == LetAll(refuse, vars', bs[1..]);
      forall k | 0 <= k < |bs| && (forall j :: 0 <= j < |bs| && j != k ==> bs[j].name != bs[k].name)
        ensures bs[k].name in r.1 && r.1[bs[k].name] == bs[k].val
      {
        if k > 0 {
          assert bs[k] == bs[1..][k - 1];
          forall j | 0 <= j < |bs[1..]| && j != k - 1
            ensures bs[1..][j].name != bs[1..][k - 1].name
          {
            assert bs[1..][j] == bs[j + 1];
          }
        } else {
          forall j | 0 <= j < |bs[1..]|
            ensures bs[1..][j].name != bs[0].name
          {
            assert bs[1..][j] == bs[j + 1];
          }
          LetAllKeeps(refuse, vars', bs[1..], bs[0].name);
        }
      }
    }
  }

  /** A name no binding touches keeps its value. */
  lemma {:induction false} LetAllKeeps(refuse: Policy, vars: map<string, Val>, bs: seq<Binding>, n: string)
    requires n in vars
    requires forall j :: 0 <= j < |bs| ==> bs[j].name != n
    ensures n in LetAll(refuse, vars, bs).1 && LetAll(refuse, vars, bs).1[n] == vars[n]
    decreases |bs|
  {
    if bs != [] && refuse(vars, bs[0].name, bs[0].val).None? {
      LetAllKeeps(refuse, vars[bs[0].name := bs[0].val], bs[1..], n);
    }
  }
}
