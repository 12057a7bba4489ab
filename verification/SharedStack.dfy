/** libco's shared stacks: coroutines that use the same stack memory are copied out and back on a switch. */
module SharedStack {
  import opened Bytes

  const MAX_CALL_STACK := 128

  class StackMem {
    var buffer: seq<Byte>
    var occupy: Coroutine?

    constructor (buffer: seq<Byte>)
      ensures this.buffer == buffer && occupy == null
    {
      this.buffer, occupy := buffer, null;
    }
  }

  class Coroutine {
    const mem: StackMem
    const shared: bool
    var started: bool
    /** Where the live part of its stack began when it last left. */
    var sp: nat
    var save: seq<Byte>
    /** The live part of its stack when it last left. */
    ghost var left: seq<Byte>

    constructor (mem: StackMem, shared: bool)
      ensures this.mem == mem && this.shared == shared && !started && save == []
    {
      this.mem, this.shared := mem, shared;
      started, sp, save, left := false, 0, [], [];
    }
  }

  /** A suspended coroutine's stack is intact where it was, or its live part is all in its save buffer. */
  ghost predicate Kept(c: Coroutine)
    reads c, c.mem
  {
    && c.sp + |c.left| == |c.mem.buffer|
    && if !c.shared || c.mem.occupy == c then c.mem.buffer[c.sp..] == c.left else c.save == c.left
  }

  class Env {
    var callStack: seq<Coroutine>
    var pending: Coroutine?
    var occupy: Coroutine?
    ghost var cos: set<Coroutine>

    function Current(): Coroutine
      requires callStack != []
      reads this
    {
      callStack[|callStack| - 1]
    }

    function Below(): Coroutine
      requires |callStack| >= 2
      reads this
    {
      callStack[|callStack| - 2]
    }

    /** Stack memories are used by one coroutine or by shared ones only, and occupants are what they seem. */
    ghost predicate Placed()
      reads this`cos, cos, set c | c in cos :: c.mem
    {
      && (forall c, d :: c in cos && d in cos && c != d && c.mem == d.mem ==> c.shared && d.shared)
      && (forall c :: c in cos && c.mem.occupy != null ==>
            c.mem.occupy in cos && c.mem.occupy.shared && c.mem.occupy.mem == c.mem && c.mem.occupy.started)
      && (forall c :: c in cos && !c.shared ==> c.mem.occupy == null)
    }

    /** Every coroutine that has left, other than x, can come back to the stack it left. */
    ghost predicate KeptBut(x: Coroutine?)
      reads this`cos, cos, set c | c in cos :: c.mem
    {
      forall c :: c in cos && c.started && c != x ==> Kept(c) && (c.shared ==> c.mem.occupy != null)
    }

    ghost predicate Stacked()
      reads this`cos, this`callStack, cos
    {
      && callStack != []
      && (forall i :: 0 <= i < |callStack| ==> callStack[i] in cos && callStack[i].started)
      && (forall i, j :: 0 <= i < j < |callStack| ==> callStack[i] != callStack[j])
    }

    ghost predicate Valid()
      reads this, cos, set c | c in cos :: c.mem
    {
      && Stacked() && Placed() && KeptBut(Current())
      && (Current().shared ==> Current().mem.occupy == Current())
    }

    /** co_init_curr_thread_env: the main coroutine, on a stack of its own, is running. */
    constructor (main: Coroutine, cos: set<Coroutine>)
      requires main in cos && main.started && !main.shared
      requires forall c, d :: c in cos && d in cos && c != d && c.mem == d.mem ==> c.shared && d.shared
      requires forall c :: c in cos ==> c.mem.occupy == null && (c != main ==> !c.started)
      ensures Valid() && callStack == [main] && this.cos == cos
    {
      callStack, pending, occupy := [main], null, null;
      this.cos := cos;
    }

    /** The running coroutine may write anywhere in its stack memory. */
    method Run(buffer: seq<Byte>)
      requires Valid() && |buffer| == |Current().mem.buffer|
      modifies Current().mem`buffer
      ensures Valid() && Current().mem.buffer == buffer
    {
      var m := Current().mem;
      m.buffer := buffer;
      forall c | c in cos && c.started && c != Current() ensures Kept(c) {
        assert old(Kept(c));
      }
    }

    /** The first line of co_swap: where the live stack of the leaving coroutine begins. */
    method Leave(curr: Coroutine, sp: nat)
      requires Placed() && KeptBut(curr) && curr in cos && curr.started && sp <= |curr.mem.buffer|
      requires curr.shared ==> curr.mem.occupy == curr
      modifies curr`sp, curr`left
      ensures Placed() && curr.sp == sp && curr.left == curr.mem.buffer[sp..]
      ensures KeptBut(null)
    {
      curr.sp := sp;
      curr.left := curr.mem.buffer[sp..];
      forall c | c in cos && c.started ensures Kept(c) {
        if c != curr {
          assert old(Kept(c));
        }
      }
    }

    /** save_stack_buffer. */
    method SaveStackBuffer(occ: Coroutine)
      requires occ.sp <= |occ.mem.buffer|
      modifies occ`save
      ensures occ.save == occ.mem.buffer[occ.sp..]
    {
      occ.save := occ.mem.buffer[occ.sp..];
    }

    /** co_swap before the switch, shared case: the pending coroutine takes its stack memory from the occupant. */
    method Displace(pend: Coroutine, ghost first: bool)
      requires Placed() && KeptBut(if first then pend else null) && pend in cos && pend.started && pend.shared
      modifies this`occupy, cos`save, pend.mem`occupy
      ensures KeptBut(pend) && pend.mem.occupy == pend && occupy == old(pend.mem.occupy)
      ensures occupy != pend ==> pend.save == old(pend.save)
    {
      var occ := pend.mem.occupy;
      pend.mem.occupy := pend;
      occupy := occ;
      if occ != null && occ != pend {
        SaveStackBuffer(occ);
      }
      forall c | c in cos && c.started && c != pend ensures Kept(c) && (c.shared ==> c.mem.occupy != null) {
        assert old(Kept(c));
        if c.mem != pend.mem {
          assert c.mem.occupy == old(c.mem.occupy);
        }
      }
    }

    /** co_swap before the switch. */
    method TakeStack(pend: Coroutine, ghost first: bool)
      requires Placed() && KeptBut(if first then pend else null) && pend in cos && pend.started
      requires first ==> pend.mem.occupy != pend
      modifies this`pending, this`occupy, cos`save, pend.mem`occupy
      ensures Placed() && KeptBut(pend) && (pend.shared ==> pend.mem.occupy == pend)
      ensures pend.sp + |pend.left| == |pend.mem.buffer| || first
      ensures if pend.shared then pending == pend && occupy == old(pend.mem.occupy) else pending == null && occupy == null
      ensures !first && (occupy == null || pending == null || occupy == pending) ==> pend.mem.buffer[pend.sp..] == pend.left
      ensures !first && occupy != null && pending != null && occupy != pending ==> pend.save == pend.left
    {
      if !pend.shared {
        pending, occupy := null, null;
        return;
      }
      assert !first ==> Kept(pend);
      pending := pend;
      Displace(pend, first);
    }

    /** co_swap after the switch: what the pending coroutine does first if it has run before. */
    method RestoreStack(pend: Coroutine)
      requires Placed() && KeptBut(pend) && pend in cos && (pend.shared ==> pend.mem.occupy == pend)
      requires pend.sp + |pend.left| == |pend.mem.buffer|
      requires if pend.shared then pending == pend else pending == null
      requires occupy == null || pending == null || occupy == pending ==> pend.mem.buffer[pend.sp..] == pend.left
      requires occupy != null && pending != null && occupy != pending ==> pend.save == pend.left
      modifies pend.mem`buffer
      ensures Placed() && KeptBut(pend) && pend.sp <= |pend.mem.buffer| && pend.mem.buffer[pend.sp..] == pend.left
      ensures |pend.mem.buffer| == old(|pend.mem.buffer|)
    {
      if occupy != null && pending != null && occupy != pending {
        if |pending.save| > 0 {
          var m := pending.mem;
          m.buffer := m.buffer[..pending.sp] + pending.save;
        }
      }
      forall c | c in cos && c.started && c != pend ensures Kept(c) {
        assert old(Kept(c));
      }
    }

    /** co_resume marks a coroutine started before its first switch. */
    method Start(co: Coroutine)
      requires Placed() && KeptBut(null) && co in cos && !co.started
      modifies co`started
      ensures co.started && Placed() && KeptBut(co) && co.mem.occupy != co
    {
      assert co.mem.occupy != co;
      co.started := true;
    }

    /** co_swap: the leaving coroutine's live stack is remembered and the pending one finds its own. */
    method Swap(curr: Coroutine, pend: Coroutine, sp: nat)
      requires Placed() && KeptBut(curr) && curr in cos && curr.started && sp <= |curr.mem.buffer|
      requires curr.shared ==> curr.mem.occupy == curr
      requires pend in cos && pend != curr
      modifies this`pending, this`occupy, curr`sp, curr`left, pend`started, cos`save, pend.mem
      ensures Placed() && KeptBut(pend) && pend.started && (pend.shared ==> pend.mem.occupy == pend)
      ensures old(pend.started) ==> pend.sp <= |pend.mem.buffer| && pend.mem.buffer[pend.sp..] == pend.left
      ensures |pend.mem.buffer| == old(|pend.mem.buffer|)
      ensures !old(pend.started) ==> pend.mem.buffer == old(pend.mem.buffer)
      ensures curr.left == old(curr.mem.buffer)[sp..]
    {
      hide Kept;
      hide Placed;
      hide KeptBut;
      Leave(curr, sp);
      var first := !pend.started;
      if first {
        Start(pend);
      }
      TakeStack(pend, first);
      if !first {
        RestoreStack(pend);
      }
    }

    /** co_resume: the coroutine finds the live stack it had when it last left. */
    method Resume(co: Coroutine, sp: nat)
      requires Valid() && co in cos && co !in callStack && |callStack| < MAX_CALL_STACK
      requires sp <= |Current().mem.buffer|
      modifies this`callStack, this`pending, this`occupy, Current()`sp, Current()`left, co`started, cos`save, co.mem
      ensures Valid() && callStack == old(callStack) + [co] && cos == old(cos)
      ensures old(co.started) ==> co.sp == old(co.sp) <= |co.mem.buffer| && co.mem.buffer[co.sp..] == old(co.left)
      ensures |co.mem.buffer| == old(|co.mem.buffer|)
      ensures !old(co.started) ==> co.mem.buffer == old(co.mem.buffer)
      ensures old(Current()).left == old(Current().mem.buffer)[sp..]
    {
      hide Placed;
      hide KeptBut;
      var curr := Current();
      callStack := callStack + [co];
      Swap(curr, co, sp);
    }

    /** co_yield_env: the coroutine below on the call stack finds the live stack it had when it resumed this one. */
    method Yield(sp: nat)
      requires Valid() && |callStack| >= 2 && sp <= |Current().mem.buffer|
      modifies this`callStack, this`pending, this`occupy, Current()`sp, Current()`left, Below()`started
      modifies cos`save, Below().mem
      ensures Valid() && callStack == old(callStack)[..|old(callStack)| - 1] && cos == old(cos)
      ensures var last := Current();
              && last.sp == old(last.sp) <= |last.mem.buffer| && last.mem.buffer[last.sp..] == old(last.left)
              && |last.mem.buffer| == old(|last.mem.buffer|)
      ensures old(Current()).left == old(Current().mem.buffer)[sp..]
    {
      hide Placed;
      hide KeptBut;
      var last := Below();
      var curr := Current();
      callStack := callStack[..|callStack| - 1];
      Swap(curr, last, sp);
    }
  }
}
