/** The chain of callback hooks of a handle (handles.c), a tail queue of callbacks. */
module HookChain {
  import opened TailQueue

  datatype Where = First | Last

  /** A callback, and where its hook was asked to go. */
  datatype Added = Added(place: Where, fn: nat)

  datatype Message = Message(uMsg: nat, wParam: nat, lParam: nat)

  /** A handle's own callback, which may be missing; hooks always have one. */
  datatype Callback = NoCallback | Callback(fn: nat)

  /** A callback that is called with a message. */
  datatype Call = Call(fn: nat, msg: Message)

  function Calls(fns: seq<nat>, msg: Message): (cs: seq<Call>)
    ensures |cs| == |fns| && forall i :: 0 <= i < |cs| ==> cs[i] == Call(fns[i], msg)
  {
    seq(|fns|, i requires 0 <= i < |fns| => Call(fns[i], msg))
  }

  /** The callbacks added at the front, last one first. */
  function Fronts(hs: seq<Added>): seq<nat> {
    if hs == [] then []
    else
      var h := hs[|hs| - 1];
      (if h.place == First then [h.fn] else []) + Fronts(hs[..|hs| - 1])
  }

  /** The callbacks added at the back, in order. */
  function Backs(hs: seq<Added>): seq<nat> {
    if hs == [] then []
    else
      var h := hs[|hs| - 1];
      Backs(hs[..|hs| - 1]) + (if h.place == Last then [h.fn] else [])
  }

  /** The front ones in reverse, before the back ones. */
  function InOrder(hs: seq<Added>): seq<nat> {
    Fronts(hs) + Backs(hs)
  }

  lemma OneMore(hs: seq<Added>, h: Added)
    ensures h.place == First ==> InOrder(hs + [h]) == [h.fn] + InOrder(hs)
    ensures h.place == Last ==> InOrder(hs + [h]) == InOrder(hs) + [h.fn]
  {
    var all := hs + [h];
    assert all[..|all| - 1] == hs;
    if h.place == First {
      assert Fronts(all) == [h.fn] + Fronts(hs);
    } else {
      assert Backs(all) == Backs(hs) + [h.fn];
    }
  }

  class Handle {
    var invalid: bool
    const fnCallback: Callback
    const lCallbacks: Queue<nat>
    /** Every hook added so far. */
    ghost var history: seq<Added>

    /** The chain holds the hooks added, in order. */
    ghost predicate Valid()
      reads this, lCallbacks, lCallbacks.elems
    {
      lCallbacks.Valid() && lCallbacks.Contents() == InOrder(history)
    }

    constructor (fnCallback: Callback)
      ensures Valid() && history == [] && !invalid && this.fnCallback == fnCallback
    {
      this.fnCallback, invalid, history := fnCallback, false, [];
      lCallbacks := new Queue<nat>();
    }

    /** A new hook, put where it is asked to go. */
    method Insert(dwWhere: Where, fn: nat)
      requires lCallbacks.Valid()
      modifies lCallbacks, lCallbacks.elems
      ensures lCallbacks.Valid()
      ensures dwWhere == First ==> lCallbacks.Contents() == [fn] + old(lCallbacks.Contents())
      ensures dwWhere == Last ==> lCallbacks.Contents() == old(lCallbacks.Contents()) + [fn]
    {
      var lpCall := new Entry<nat>(fn);
      DataOfOneMore(lpCall, lCallbacks.elems);
      if dwWhere == First {
        lCallbacks.InsertHead(lpCall);
      } else {
        lCallbacks.InsertTail(lpCall);
      }
    }

    /** apxHandleAddHook; isNull tells a null callback. */
    method AddHook(dwWhere: Where, fn: nat, isNull: bool) returns (rv: bool)
      requires Valid()
      modifies this`history, lCallbacks, lCallbacks.elems
      ensures Valid()
      ensures rv <==> !invalid && !isNull
      ensures rv ==> history == old(history) + [Added(dwWhere, fn)]
      ensures !rv ==> history == old(history) && lCallbacks.Contents() == old(lCallbacks.Contents())
      ensures rv && dwWhere == First ==> lCallbacks.Contents() == [fn] + old(lCallbacks.Contents())
      ensures rv && dwWhere == Last ==> lCallbacks.Contents() == old(lCallbacks.Contents()) + [fn]
    {
      if invalid || isNull {
        return false;
      }
      ghost var more := history + [Added(dwWhere, fn)];
      OneMore(history, Added(dwWhere, fn));
      Insert(dwWhere, fn);
      assert lCallbacks.Contents() == InOrder(more);
      history := more;
      rv := true;
    }

    lemma OneCallMore(msg: Message, fns: seq<nat>, k: nat)
      requires k < |fns|
      ensures Calls(fns[..k + 1], msg) == Calls(fns[..k], msg) + [Call(fns[k], msg)]
    {
    }

    /** The walk over the chain: each hook is called with the message, first to last. */
    method CallHooks(msg: Message) returns (calls: seq<Call>)
      requires Valid()
      ensures calls == Calls(InOrder(history), msg)
    {
      calls := [];
      var lpCall := lCallbacks.first;
      ghost var k, all := 0, lCallbacks.Contents();
      while lpCall != null
        invariant 0 <= k <= |lCallbacks.elems|
        invariant lpCall == if k < |lCallbacks.elems| then lCallbacks.elems[k] else null
        invariant calls == Calls(all[..k], msg)
        decreases |lCallbacks.elems| - k
      {
        OneCallMore(msg, all, k);
        calls := calls + [Call(lpCall.data, msg)];
        lpCall := lpCall.next;
        k := k + 1;
      }
      assert all[..k] == all;
    }

    /**
     * apxHandleSendMessage: the calls it makes, the handle's own callback first,
     * and what that answers. answer says what a callback returns; no callback
     * changes the chain.
     */
    method SendMessage(msg: Message, answer: (nat, Message) -> bool) returns (rv: bool, calls: seq<Call>)
      requires Valid()
      ensures invalid ==> calls == []
      ensures !invalid && fnCallback.Callback? ==>
        calls != [] && calls[0] == Call(fnCallback.fn, msg) && calls[1..] == Calls(InOrder(history), msg)
      ensures !invalid && fnCallback.NoCallback? ==> calls == Calls(InOrder(history), msg)
      ensures rv <==> !invalid && (fnCallback.Callback? ==> answer(fnCallback.fn, msg))
    {
      rv, calls := true, [];
      if invalid {
        return false, [];
      }
      if fnCallback.Callback? {
        rv := answer(fnCallback.fn, msg);
        calls := [Call(fnCallback.fn, msg)];
      }
      var others := CallHooks(msg);
      calls := calls + others;
      assert [] + others == others;
    }
  }

  /** Three hooks: the later of two at the front comes first. */
  lemma ThreeHooks(a: nat, b: nat, c: nat)
    ensures InOrder([Added(First, a), Added(Last, b), Added(First, c)]) == [c, a, b]
  {
    var hs := [Added(First, a)];
    OneMore([], Added(First, a));
    OneMore(hs, Added(Last, b));
    OneMore(hs + [Added(Last, b)], Added(First, c));
    assert [] + [Added(First, a)] == hs;
    assert hs + [Added(Last, b)] + [Added(First, c)] == [Added(First, a), Added(Last, b), Added(First, c)];
  }
}
