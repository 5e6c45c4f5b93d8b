/** The register allocator as a value: a stack of released registers and the next fresh one. */
module Allocator {
  import opened Words
  import opened Bytecode

  datatype Alloc = Alloc(free: seq<byte>, next: nat)

  /** Released registers are distinct and were handed out before. */
  ghost predicate Released(free: seq<byte>, next: nat) {
    free != [] ==>
      var last, rest := free[|free| - 1], free[..|free| - 1];
      last < next && last !in rest && Released(rest, next)
  }

  ghost predicate ValidAlloc(ra: Alloc) {
    ra.next <= MAX_REGISTER_COUNT && Released(ra.free, ra.next)
  }

  /** Registers handed out and not released. */
  predicate Live(ra: Alloc, r: int) {
    0 <= r < ra.next && r !in ra.free
  }

  /** The live registers as the bits of a bitset. */
  ghost function LiveBits(ra: Alloc): (bits: seq<bool>)
    ensures |bits| == MAX_REGISTER_COUNT
  {
    seq(MAX_REGISTER_COUNT, r => Live(ra, r))
  }

  /** How many registers are live. */
  function LiveCount(ra: Alloc): int {
    ra.next - |ra.free|
  }

  /** Whether a register can be handed out. */
  predicate CanTake(ra: Alloc) {
    ra.free != [] || ra.next < MAX_REGISTER_COUNT
  }

  /** The register handed out next: the one released last, else a fresh one. */
  function Taken(ra: Alloc): byte
    requires CanTake(ra)
  {
    if ra.free != [] then ra.free[|ra.free| - 1] else ra.next
  }

  function Take(ra: Alloc): Alloc
    requires CanTake(ra)
  {
    if ra.free != [] then Alloc(ra.free[..|ra.free| - 1], ra.next) else Alloc([], ra.next + 1)
  }

  function Give(ra: Alloc, r: byte): Alloc {
    Alloc(ra.free + [r], ra.next)
  }

  /** `after` has exactly the live registers of `before` and one more, `r`. */
  ghost predicate AddsOne(before: Alloc, after: Alloc, r: byte) {
    && ValidAlloc(after)
    && !Live(before, r)
    && (forall x :: Live(after, x) <==> Live(before, x) || x == r)
    && LiveCount(after) == LiveCount(before) + 1
  }

  function Max(a: int, b: int): int {
    if a < b then b else a
  }

  /** A fresh register is wanted only when every register so far is live, so the high-water
      mark rises exactly to the live count. */
  lemma TakeAddsOne(ra: Alloc)
    requires ValidAlloc(ra)
    ensures CanTake(ra) <==> LiveCount(ra) < MAX_REGISTER_COUNT
    ensures CanTake(ra) ==> AddsOne(ra, Take(ra), Taken(ra))
    ensures CanTake(ra) ==> Take(ra).next == Max(ra.next, LiveCount(ra) + 1)
  {
    hide AddsOne, Live;
    FreeBound(ra);
    if ra.free != [] {
      TakeReleased(ra);
    } else if ra.next < MAX_REGISTER_COUNT {
      TakeFresh(ra);
    }
  }

  lemma TakeReleased(ra: Alloc)
    requires ValidAlloc(ra) && ra.free != []
    ensures AddsOne(ra, Take(ra), ra.free[|ra.free| - 1])
  {
    assert ra.free == ra.free[..|ra.free| - 1] + [ra.free[|ra.free| - 1]];
  }

  lemma TakeFresh(ra: Alloc)
    requires ValidAlloc(ra) && ra.free == [] && ra.next < MAX_REGISTER_COUNT
    ensures AddsOne(ra, Take(ra), ra.next)
  {
  }

  lemma GiveRemovesOne(ra: Alloc, r: byte)
    requires ValidAlloc(ra) && Live(ra, r)
    ensures ValidAlloc(Give(ra, r))
    ensures forall x :: Live(Give(ra, r), x) <==> Live(ra, x) && x != r
    ensures LiveCount(Give(ra, r)) == LiveCount(ra) - 1
  {
    assert Give(ra, r).free[..|ra.free|] == ra.free;
  }

  /** Distinct released registers are no more than the registers handed out. */
  lemma FreeBound(ra: Alloc)
    requires ValidAlloc(ra)
    ensures |ra.free| <= ra.next
  {
    var f, all := Elements(ra.free, ra.next), UpTo(ra.next);
    assert all == f + (all - f);
  }

  ghost function Elements(f: seq<byte>, next: nat): (s: set<int>)
    requires Released(f, next)
    ensures |s| == |f|
    ensures forall x :: x in s ==> x in f && 0 <= x < next
  {
    if f == [] then {} else Elements(f[..|f| - 1], next) + {f[|f| - 1]}
  }

  ghost function UpTo(n: nat): (s: set<int>)
    ensures |s| == n
    ensures forall x :: x in s <==> 0 <= x < n
  {
    if n == 0 then {} else UpTo(n - 1) + {n - 1}
  }
}
