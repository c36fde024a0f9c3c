/** Types shared by every module of the model. */
module Common {
  const TWO_64 := 0x1_0000_0000_0000_0000

  type Byte = b: int | 0 <= b < 256

  /** An unsigned 64-bit machine integer.  Wrap-around is written out with `% TWO_64` where it can happen. */
  type Uint64 = n: int | 0 <= n < TWO_64

  /** The successor of a 64-bit counter, which wraps to zero. */
  function Bump(n: Uint64): Uint64 { (n + 1) % TWO_64 }

  datatype Option<+T> = None | Some(value: T)

  /** How a read-write transaction of the embedded database goes: it commits, or it never begins, or an error raised
      inside the transaction body (before its `at`-th write) or by the commit itself rolls everything back. */
  datatype TxFate = Commits | NeverBegins | FailsInside(at: nat) | FailsAtCommit

  /** What incrementing a counter that stands at `n` returns: its successor, whether or not the transaction then
      commits, and 0 if it never begins. */
  function Incremented(n: Uint64, fate: TxFate): (r: Uint64)
    ensures fate.NeverBegins? ==> r == 0
    ensures !fate.NeverBegins? ==> r == (n + 1) % TWO_64
  {
    if fate.NeverBegins? then 0 else Bump(n)
  }

  /** The first `n` elements, or all of them; none when `n` is not positive. */
  function Take<T>(s: seq<T>, n: int): (r: seq<T>)
    ensures r <= s
    ensures |r| == if n <= 0 then 0 else if |s| <= n then |s| else n
  {
    if n <= 0 then [] else if |s| <= n then s else s[..n]
  }
}
