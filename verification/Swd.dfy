/** Serial wire debug accesses, on any target: what a request does to the target is a parameter. */
module Swd {
  import opened Words

  // What a register write does to a target, and what a register read does and returns.
  datatype Bus<!T> = Bus(write: (T, nat, u32) -> T, read: (T, nat) -> (T, u32))

  // One access; a read whose result nobody wants has keep == false.
  datatype Access = Wr(op: nat, v: u32) | Rd(op: nat, keep: bool)

  function Perform<T>(bus: Bus<T>, t: T, a: Access): (T, seq<u32>) {
    match a
    case Wr(op, v) => (bus.write(t, op, v), [])
    case Rd(op, keep) => var (t', x) := bus.read(t, op); (t', if keep then [x] else [])
  }

  // A run of accesses: the target afterwards and the words kept, oldest first.
  function PerformAll<T>(bus: Bus<T>, t: T, accs: seq<Access>): (T, seq<u32>)
    decreases |accs|
  {
    if accs == [] then (t, [])
    else
      var (t1, xs) := Perform(bus, t, accs[0]);
      var (t2, ys) := PerformAll(bus, t1, accs[1..]);
      (t2, xs + ys)
  }

  lemma {:induction false} PerformAllAppend<T>(bus: Bus<T>, t: T, a: seq<Access>, b: seq<Access>)
    ensures var (t1, xs) := PerformAll(bus, t, a);
      var (t2, ys) := PerformAll(bus, t1, b);
      PerformAll(bus, t, a + b) == (t2, xs + ys)
    decreases |a|
  {
    if a == [] {
      assert a + b == b;
      assert [] + PerformAll(bus, t, b).1 == PerformAll(bus, t, b).1;
    } else {
      assert (a + b)[1..] == a[1..] + b;
      var (t0, ws) := Perform(bus, t, a[0]);
      PerformAllAppend(bus, t0, a[1..], b);
      var (t1, xs) := PerformAll(bus, t0, a[1..]);
      assert ws + (xs + PerformAll(bus, t1, b).1) == ws + xs + PerformAll(bus, t1, b).1;
    }
  }
}
