/** Small concepts several components share. */
module Basics {
  import opened Bits

  datatype Option<T> = None | Some(value: T)

  function Least(a: nat, b: nat): nat {
    if a < b then a else b
  }

  /** White space to the C library's isspace. */
  predicate Space(c: byte) {
    9 <= c <= 13 || c == 32
  }

  function Zeros(n: nat): (s: seq<byte>)
    ensures |s| == n
  {
    seq(n, _ => 0)
  }

  /** What the 32-bit millisecond clock reads `time` milliseconds after boot. */
  function Clock(time: nat): nat {
    time % 0x1_0000_0000
  }

  /** The difference of two clock readings, in the clock's own arithmetic. */
  function Age(now: nat, since: nat): nat {
    (now - since) % 0x1_0000_0000
  }

  lemma Associates<T>(a: seq<T>, b: seq<T>, c: seq<T>)
    ensures a + b + c == a + (b + c)
  {}
}
