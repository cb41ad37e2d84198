/** The handler registry both peers keep: callbacks are compared by identity,
    re-adding a registered one changes nothing, and dispatch visits them in
    the order they were first added, as a JavaScript `Set` does. */
module Handlers {

  /** A registered callback, by identity. */
  type HandlerId = nat

  predicate Distinct(hs: seq<HandlerId>) {
    forall i, j :: 0 <= i < j < |hs| ==> hs[i] != hs[j]
  }

  /** `a` is `b` with some elements left out, the rest in the same order. */
  predicate Subsequence(a: seq<HandlerId>, b: seq<HandlerId>)
    decreases |b|
  {
    a == [] ||
    (b != [] && ((a[0] == b[0] && Subsequence(a[1..], b[1..])) || Subsequence(a, b[1..])))
  }

  /** `Set.add`: afterwards `h` is a member; members already there keep
      their place, and a new member goes last. */
  function Add(hs: seq<HandlerId>, h: HandlerId): (r: seq<HandlerId>)
    ensures forall x :: x in r <==> x in hs || x == h
    ensures Distinct(hs) ==> Distinct(r)
    ensures |hs| <= |r| <= |hs| + 1 && r[..|hs|] == hs
  {
    if h in hs then hs else hs + [h]
  }

  /** `Set.delete`: afterwards `h` is no member; every other member stays,
      in the same order. */
  function Remove(hs: seq<HandlerId>, h: HandlerId): (r: seq<HandlerId>)
    ensures forall x :: x in r <==> x in hs && x != h
    ensures Distinct(hs) ==> Distinct(r)
    ensures Subsequence(r, hs)
    decreases |hs|
  {
    if hs == [] then []
    else if hs[0] == h then
      Remove(hs[1..], h)
    else
      var rest := Remove(hs[1..], h);
      var r := [hs[0]] + rest;
      assert r[1..] == rest;
      assert Distinct(hs) ==> hs[0] !in hs[1..];
      r
  }

  lemma {:induction false} RemoveAbsent(hs: seq<HandlerId>, h: HandlerId)
    requires h !in hs
    ensures Remove(hs, h) == hs
    decreases |hs|
  {
    if hs != [] {
      RemoveAbsent(hs[1..], h);
      assert [hs[0]] + hs[1..] == hs;
    }
  }

  lemma {:induction false} RemoveAppendOther(hs: seq<HandlerId>, x: HandlerId, h: HandlerId)
    ensures Remove(hs + [x], h) == Remove(hs, h) + (if x == h then [] else [x])
    decreases |hs|
  {
    if hs == [] {
      assert hs + [x] == [x];
      assert [x][1..] == [];
    } else {
      assert (hs + [x])[1..] == hs[1..] + [x];
      RemoveAppendOther(hs[1..], x, h);
    }
  }

  /** Removing a handler just added undoes the addition. */
  lemma RemoveUndoesAdd(hs: seq<HandlerId>, h: HandlerId)
    requires h !in hs
    ensures Remove(Add(hs, h), h) == hs
  {
    RemoveAppendOther(hs, h, h);
    RemoveAbsent(hs, h);
  }

  /** One call of one handler with its arguments. */
  datatype Invocation<A> = Invocation(handler: HandlerId, arg: A)

  /** `for (const handler of handlers) handler(arg)`. */
  function Fanout<A>(hs: seq<HandlerId>, arg: A): seq<Invocation<A>> {
    if hs == [] then [] else Fanout(hs[..|hs| - 1], arg) + [Invocation(hs[|hs| - 1], arg)]
  }

  /** The fan-out of each argument in turn. */
  function FanoutAll<A>(hs: seq<HandlerId>, args: seq<A>): seq<Invocation<A>> {
    if args == [] then [] else FanoutAll(hs, args[..|args| - 1]) + Fanout(hs, args[|args| - 1])
  }

  /** One call per registered handler, in registration order, each with
      the argument. */
  lemma {:induction false} FanoutSpec<A>(hs: seq<HandlerId>, arg: A)
    ensures |Fanout(hs, arg)| == |hs|
    ensures forall i :: 0 <= i < |hs| ==> Fanout(hs, arg)[i] == Invocation(hs[i], arg)
    decreases |hs|
  {
    if hs != [] {
      FanoutSpec(hs[..|hs| - 1], arg);
    }
  }

  /** Dispatching `args`: each argument is handed to every handler, so there
      are |args| * |hs| calls, and each names a registered handler and one
      of the arguments. */
  lemma {:induction false} FanoutAllSpec<A>(hs: seq<HandlerId>, args: seq<A>)
    ensures |FanoutAll(hs, args)| == |args| * |hs|
    ensures forall x :: x in FanoutAll(hs, args) ==> x.handler in hs && x.arg in args
    decreases |args|
  {
    if args != [] {
      var init, last := args[..|args| - 1], args[|args| - 1];
      FanoutAllSpec(hs, init);
      FanoutSpec(hs, last);
      assert (|args| - 1) * |hs| + |hs| == |args| * |hs|;
      forall x | x in FanoutAll(hs, args) ensures x.handler in hs && x.arg in args {
        if x in FanoutAll(hs, init) {
          assert x.arg in init;
        } else {
          assert x in Fanout(hs, last);
          var i :| 0 <= i < |hs| && Fanout(hs, last)[i] == x;
        }
      }
    }
  }

  /** The arguments handler `h` was called with, in order. */
  function Received<A>(log: seq<Invocation<A>>, h: HandlerId): seq<A> {
    if log == [] then []
    else
      Received(log[..|log| - 1], h) +
        (if log[|log| - 1].handler == h then [log[|log| - 1].arg] else [])
  }

  lemma {:induction false} ReceivedAppend<A>(a: seq<Invocation<A>>, b: seq<Invocation<A>>, h: HandlerId)
    ensures Received(a + b, h) == Received(a, h) + Received(b, h)
    decreases |b|
  {
    if b == [] {
      assert a + b == a;
    } else {
      assert (a + b)[..|a + b| - 1] == a + b[..|b| - 1];
      ReceivedAppend(a, b[..|b| - 1], h);
    }
  }

  lemma {:induction false} ReceivedFanout<A>(hs: seq<HandlerId>, arg: A, h: HandlerId)
    requires Distinct(hs)
    ensures Received(Fanout(hs, arg), h) == if h in hs then [arg] else []
    decreases |hs|
  {
    if hs != [] {
      var init := hs[..|hs| - 1];
      assert hs == init + [hs[|hs| - 1]];
      ReceivedFanout(init, arg, h);
      ReceivedAppend(Fanout(init, arg), [Invocation(hs[|hs| - 1], arg)], h);
      assert Received([Invocation(hs[|hs| - 1], arg)], h) ==
        (if hs[|hs| - 1] == h then [arg] else []) by {
        assert [Invocation(hs[|hs| - 1], arg)][..0] == [];
      }
    }
  }

  /** Dispatching a sequence of arguments: every registered handler is
      called with each of them exactly once, in order, and a handler that
      is not registered is never called. */
  lemma {:induction false} ReceivedFanoutAll<A>(hs: seq<HandlerId>, args: seq<A>, h: HandlerId)
    requires Distinct(hs)
    ensures Received(FanoutAll(hs, args), h) == if h in hs then args else []
    decreases |args|
  {
    if args != [] {
      var init := args[..|args| - 1];
      ReceivedFanoutAll(hs, init, h);
      ReceivedAppend(FanoutAll(hs, init), Fanout(hs, args[|args| - 1]), h);
      ReceivedFanout(hs, args[|args| - 1], h);
      assert init + [args[|args| - 1]] == args;
    }
  }

  lemma {:induction false} FanoutAllAppend<A>(hs: seq<HandlerId>, a: seq<A>, b: seq<A>)
    ensures FanoutAll(hs, a + b) == FanoutAll(hs, a) + FanoutAll(hs, b)
    decreases |b|
  {
    if b == [] {
      assert a + b == a;
    } else {
      assert (a + b)[..|a + b| - 1] == a + b[..|b| - 1];
      FanoutAllAppend(hs, a, b[..|b| - 1]);
    }
  }

  /** Handing one more argument to the handlers extends the calls made so
      far by that argument's fan-out. */
  lemma FanoutSnoc<A>(hs: seq<HandlerId>, args: seq<A>, arg: A)
    ensures FanoutAll(hs, args + [arg]) == FanoutAll(hs, args) + Fanout(hs, arg)
  {
    FanoutAllAppend(hs, args, [arg]);
    assert FanoutAll(hs, [arg]) == Fanout(hs, arg) by {
      assert [arg][..0] == [];
    }
  }

  /** One argument and one handler: one call. */
  lemma FanoutSingle<A>(h: HandlerId, arg: A)
    ensures FanoutAll([h], [arg]) == [Invocation(h, arg)]
  {
    assert [arg][..0] == [];
    assert [h][..0] == [];
    assert Fanout([h], arg) == Fanout([], arg) + [Invocation(h, arg)];
    assert FanoutAll([h], [arg]) == FanoutAll([h], []) + Fanout([h], arg);
  }
}
