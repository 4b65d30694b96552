/**
 The table of exit handlers. Calls are recorded as a trace; handlers are taken not to
 touch the table themselves.
 */
module AtExit {

  const MAX := 128

  /** `func` is a function pointer, 0 being null. */
  datatype Entry = Entry(func: nat, obj: nat, dso: nat)
  datatype Call = Call(slot: nat, func: nat, obj: nat)

  /** Whether `__cxa_finalize(f)` calls this entry: any live one if f is null, else those of f. */
  predicate Hit(e: Entry, f: nat) {
    e.func != 0 && (f == 0 || e.func == f)
  }

  /** The calls for slots n - 1 down to 0. */
  function CallsDown(t: seq<Entry>, n: nat, f: nat): seq<Call>
    requires n <= |t|
  {
    if n == 0 then []
    else if Hit(t[n - 1], f) then [Call(n - 1, t[n - 1].func, t[n - 1].obj)] + CallsDown(t, n - 1, f)
    else CallsDown(t, n - 1, f)
  }

  function Wiped(t: seq<Entry>, f: nat): (w: seq<Entry>)
    ensures |w| == |t|
  {
    seq(|t|, i requires 0 <= i < |t| => if f != 0 && t[i].func == f then t[i].(func := 0) else t[i])
  }

  class Table {
    const funcs: array<Entry>
    var count: nat

    ghost predicate Valid()
      reads this
    {
      funcs.Length == MAX && count <= MAX
    }

    ghost function Entries(): seq<Entry>
      requires Valid()
      reads this, funcs
    {
      funcs[..count]
    }

    constructor ()
      ensures Valid() && Entries() == [] && fresh(funcs)
    {
      funcs := new Entry[MAX](_ => Entry(0, 0, 0));
      count := 0;
    }

    method Register(f: nat, obj: nat, dso: nat) returns (status: int)
      requires Valid()
      modifies `count, funcs
      ensures Valid()
      ensures status == if |old(Entries())| >= MAX then -1 else 0
      ensures Entries() == Apply(old(Entries()), Op.Register(f, obj, dso))
      ensures status == 0 ==>
        && |Entries()| == |old(Entries())| + 1
        && var e := Entries()[|old(Entries())|]; e.func == f && e.obj == obj && e.dso == dso
    {
      if count >= MAX {
        return -1;
      }
      funcs[count] := Entry(f, obj, dso);
      count := count + 1;
      status := 0;
    }

    method Finalize(f: nat) returns (calls: seq<Call>)
      requires Valid()
      modifies funcs
      ensures Valid()
      ensures calls == CallsDown(old(Entries()), |old(Entries())|, f)
      ensures Entries() == Apply(old(Entries()), Op.Finalize(f))
    {
      ghost var t := Entries();
      calls := [];
      var i := count;
      if f == 0 {
        while i > 0
          invariant 0 <= i <= count && funcs[..count] == t
          invariant calls + CallsDown(t, i, f) == CallsDown(t, count, f)
        {
          i := i - 1;
          if funcs[i].func != 0 {
            calls := calls + [Call(i, funcs[i].func, funcs[i].obj)];
          }
        }
        assert Wiped(t, f) == t;
        return;
      }
      while i > 0
        invariant 0 <= i <= count
        invariant calls + CallsDown(t, i, f) == CallsDown(t, count, f)
        invariant forall k :: 0 <= k < i ==> funcs[k] == t[k]
        invariant forall k :: i <= k < count ==> funcs[k] == Wiped(t, f)[k]
      {
        i := i - 1;
        if funcs[i].func == f {
          calls := calls + [Call(i, funcs[i].func, funcs[i].obj)];
          funcs[i] := funcs[i].(func := 0);
        }
      }
    }
  }

  // ---------- one finalize ----------

  /** The calls go through slots below n downwards, each with what is registered there. */
  predicate Descending(c: seq<Call>, t: seq<Entry>, n: nat, f: nat)
    requires n <= |t|
  {
    && (forall k :: 0 <= k < |c| ==> c[k].slot < n && Registered(c[k], t, f))
    && forall j, k :: 0 <= j < k < |c| ==> c[j].slot > c[k].slot
  }

  predicate Registered(c: Call, t: seq<Entry>, f: nat) {
    c.slot < |t| && Hit(t[c.slot], f) && c.func == t[c.slot].func && c.obj == t[c.slot].obj
  }

  /** A finalize call runs its entries in reverse order of registration, with the registered
      function and object. */
  lemma {:induction false} ReverseOrder(t: seq<Entry>, n: nat, f: nat)
    requires n <= |t|
    ensures Descending(CallsDown(t, n, f), t, n, f)
    decreases n
  {
    if n > 0 {
      ReverseOrder(t, n - 1, f);
      if Hit(t[n - 1], f) {
        DescendingCons(Call(n - 1, t[n - 1].func, t[n - 1].obj), CallsDown(t, n - 1, f), t, n, f);
      }
    }
  }

  lemma DescendingCons(first: Call, rest: seq<Call>, t: seq<Entry>, n: nat, f: nat)
    requires 0 < n <= |t| && Descending(rest, t, n - 1, f)
    requires first.slot == n - 1 && Registered(first, t, f)
    ensures Descending([first] + rest, t, n, f)
  {
    var c := [first] + rest;
    assert forall k :: 0 < k < |c| ==> c[k] == rest[k - 1];
  }

  /** Finalizing the same function again, with no registration in between, calls nothing. */
  lemma {:induction false} FinalizeTwice(t: seq<Entry>, n: nat, f: nat)
    requires n <= |t| && f != 0
    ensures CallsDown(Wiped(t, f), n, f) == []
    decreases n
  {
    if n > 0 {
      FinalizeTwice(t, n - 1, f);
    }
  }

  // ---------- runs ----------

  datatype Op = Register(func: nat, obj: nat, dso: nat) | Finalize(func: nat)

  function Apply(t: seq<Entry>, op: Op): seq<Entry> {
    match op
    case Register(f, o, d) => if |t| >= MAX then t else t + [Entry(f, o, d)]
    case Finalize(f) => Wiped(t, f)
  }

  function CallsOf(t: seq<Entry>, op: Op): seq<Call> {
    if op.Finalize? then CallsDown(t, |t|, op.func) else []
  }

  /** The table after a run from table `t`. */
  function TableAfter(t: seq<Entry>, ops: seq<Op>): seq<Entry>
    decreases |ops|
  {
    if ops == [] then t else TableAfter(Apply(t, ops[0]), ops[1..])
  }

  /** All calls made during a run from table `t`. */
  function Trace(t: seq<Entry>, ops: seq<Op>): seq<Call>
    decreases |ops|
  {
    if ops == [] then [] else CallsOf(t, ops[0]) + Trace(Apply(t, ops[0]), ops[1..])
  }

  function Count(calls: seq<Call>, slot: nat): nat {
    if calls == [] then 0 else (if calls[0].slot == slot then 1 else 0) + Count(calls[1..], slot)
  }

  /** How often a handler is due, given what happens after its registration: once for every
      finalize of everything, and once, finally, for a finalize of its own function. */
  function Due(f: nat, later: seq<Op>): nat
    decreases |later|
  {
    if later == [] || f == 0 then 0
    else if later[0] == Finalize(0) then 1 + Due(f, later[1..])
    else if later[0] == Finalize(f) then 1
    else Due(f, later[1..])
  }

  lemma {:induction false} CountConcat(a: seq<Call>, b: seq<Call>, slot: nat)
    ensures Count(a + b, slot) == Count(a, slot) + Count(b, slot)
    decreases |a|
  {
    if a == [] {
      assert a + b == b;
    } else {
      assert (a + b)[1..] == a[1..] + b;
      CountConcat(a[1..], b, slot);
    }
  }

  /** A finalize call calls every entry it hits once, and no other. */
  lemma {:induction false} CountDown(t: seq<Entry>, n: nat, f: nat, slot: nat)
    requires n <= |t|
    ensures Count(CallsDown(t, n, f), slot) == if slot < n && Hit(t[slot], f) then 1 else 0
    decreases n
  {
    if n > 0 {
      CountDown(t, n - 1, f, slot);
      if Hit(t[n - 1], f) {
        assert CallsDown(t, n, f)[1..] == CallsDown(t, n - 1, f);
      }
    }
  }

  /** From any table, a slot in it is called as often as its function makes it due. */
  lemma {:induction false} CallsFromTable(t: seq<Entry>, ops: seq<Op>, slot: nat)
    requires slot < |t|
    ensures Count(Trace(t, ops), slot) == Due(t[slot].func, ops)
    decreases |ops|
  {
    if ops != [] {
      var op, rest := ops[0], ops[1..];
      var u := Apply(t, op);
      CountConcat(CallsOf(t, op), Trace(u, rest), slot);
      CallsFromTable(u, rest, slot);
      if op.Finalize? {
        CountDown(t, |t|, op.func, slot);
        DueOfNull(rest);
      }
    }
  }

  lemma {:induction false} DueOfNull(later: seq<Op>)
    ensures Due(0, later) == 0
  {
  }

  lemma {:induction false} TraceConcat(t: seq<Entry>, a: seq<Op>, b: seq<Op>)
    ensures Trace(t, a + b) == Trace(t, a) + Trace(TableAfter(t, a), b)
    decreases |a|
  {
    if a == [] {
      assert a + b == b;
    } else {
      assert (a + b)[1..] == a[1..] + b;
      TraceConcat(Apply(t, a[0]), a[1..], b);
    }
  }

  lemma {:induction false} NoCallsBeyondTable(t: seq<Entry>, ops: seq<Op>, slot: nat)
    requires |TableAfter(t, ops)| <= slot
    ensures Count(Trace(t, ops), slot) == 0
    ensures |t| <= |TableAfter(t, ops)|
    decreases |ops|
  {
    if ops != [] {
      var op := ops[0];
      var u := Apply(t, op);
      NoCallsBeyondTable(u, ops[1..], slot);
      CountConcat(CallsOf(t, op), Trace(u, ops[1..]), slot);
      if op.Finalize? {
        CountDown(t, |t|, op.func, slot);
      }
    }
  }

  /** In every run, a registration that finds room is called exactly as often as what
      follows it makes it due. */
  lemma CallsOfRegistration(before: seq<Op>, f: nat, obj: nat, dso: nat, later: seq<Op>)
    requires |TableAfter([], before)| < 128
    ensures var slot := |TableAfter([], before)|;
      Count(Trace([], before + [Register(f, obj, dso)] + later), slot) == Due(f, later)
  {
    var t := TableAfter([], before);
    var slot := |t|;
    var reg := Register(f, obj, dso);
    var ops := [reg] + later;
    assert before + [reg] + later == before + ops;
    TraceConcat([], before, ops);
    CountConcat(Trace([], before), Trace(t, ops), slot);
    NoCallsBeyondTable([], before, slot);
    assert ops[1..] == later;
    assert Trace(t, ops) == Trace(Apply(t, reg), later);
    CallsFromTable(Apply(t, reg), later, slot);
  }

  /** The table never holds more than 128 entries, and never fewer than before. */
  lemma {:induction false} TableBound(t: seq<Entry>, ops: seq<Op>)
    requires |t| <= 128
    ensures |t| <= |TableAfter(t, ops)| <= 128
    decreases |ops|
  {
    if ops != [] {
      TableBound(Apply(t, ops[0]), ops[1..]);
    }
  }

  /** Every call of a run is made on a slot of the table. */
  lemma {:induction false} CallsInTable(t: seq<Entry>, ops: seq<Op>, k: nat)
    requires |t| <= 128 && k < |Trace(t, ops)|
    ensures Trace(t, ops)[k].slot < |TableAfter(t, ops)|
    decreases |ops|
  {
    var now, u := CallsOf(t, ops[0]), Apply(t, ops[0]);
    if k < |now| {
      ReverseOrder(t, |t|, ops[0].func);
      TableBound(u, ops[1..]);
    } else {
      CallsInTable(u, ops[1..], k - |now|);
    }
  }

  /** From any table, the calls on a slot carry the function and the object it holds. */
  lemma {:induction false} CallsCarryEntry(t: seq<Entry>, ops: seq<Op>, slot: nat, k: nat)
    requires slot < |t| && k < |Trace(t, ops)| && Trace(t, ops)[k].slot == slot
    ensures var c := Trace(t, ops)[k]; c.func == t[slot].func != 0 && c.obj == t[slot].obj
    decreases |ops|
  {
    var now, u := CallsOf(t, ops[0]), Apply(t, ops[0]);
    if k < |now| {
      ReverseOrder(t, |t|, ops[0].func);
    } else {
      CallsCarryEntry(u, ops[1..], slot, k - |now|);
    }
  }

  /** In every run, each call of a registration that found room is a call of the function
      registered, with the object registered. */
  lemma CallsCarryRegistration(before: seq<Op>, f: nat, obj: nat, dso: nat, later: seq<Op>, k: nat)
    requires |TableAfter([], before)| < 128
    requires var calls := Trace([], before + [Register(f, obj, dso)] + later);
      k < |calls| && calls[k].slot == |TableAfter([], before)|
    ensures var c := Trace([], before + [Register(f, obj, dso)] + later)[k]; c.func == f && c.obj == obj
  {
    var t, ops := TableAfter([], before), [Register(f, obj, dso)] + later;
    assert before + [Register(f, obj, dso)] + later == before + ops;
    TraceConcat([], before, ops);
    var n := |Trace([], before)|;
    if k < n {
      CallsInTable([], before, k);
    } else {
      assert ops[1..] == later;
      assert Trace(t, ops) == Trace(Apply(t, ops[0]), later);
      CallsCarryEntry(Apply(t, ops[0]), later, |t|, k - n);
    }
  }

  /** A run that ends with its only finalize of everything calls each non-null handler
      exactly once. */
  lemma {:induction false} ExactlyOnce(f: nat, middle: seq<Op>)
    requires f != 0 && Finalize(0) !in middle
    ensures Due(f, middle + [Finalize(0)]) == 1
    decreases |middle|
  {
    var later := middle + [Finalize(0)];
    if middle == [] {
      assert later[1..] == [];
    } else {
      assert later[1..] == middle[1..] + [Finalize(0)];
      ExactlyOnce(f, middle[1..]);
    }
  }

  /** In a run with one finalize of everything, at its end, every registration of a non-null
      handler that found room is called exactly once, whatever happened before. */
  lemma RunCallsOnce(before: seq<Op>, f: nat, obj: nat, dso: nat, middle: seq<Op>)
    requires |TableAfter([], before)| < 128 && f != 0 && Finalize(0) !in middle
    ensures var slot := |TableAfter([], before)|;
      Count(Trace([], before + [Register(f, obj, dso)] + (middle + [Finalize(0)])), slot) == 1
  {
    ExactlyOnce(f, middle);
    CallsOfRegistration(before, f, obj, dso, middle + [Finalize(0)]);
  }

  /** Finalizing everything twice calls a handler twice: entries are not unset. */
  lemma TwiceAtExit(f: nat, obj: nat, dso: nat)
    requires f != 0
    ensures Count(Trace([], [Register(f, obj, dso), Finalize(0), Finalize(0)]), 0) == 2
  {
    var reg := Op.Register(f, obj, dso);
    var later := [Op.Finalize(0), Op.Finalize(0)];
    assert [] + [reg] + later == [reg, Finalize(0), Finalize(0)];
    CallsOfRegistration([], f, obj, dso, later);
    assert later[1..] == [Finalize(0)] && later[1..][1..] == [];
  }
}
