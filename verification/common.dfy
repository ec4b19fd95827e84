/** Machine integer widths, an optional value and a few sequence helpers
    shared by the rest of the model. */
module Common {

  /** The conventional Some/None wrapper, standing in for a null result
      or an absent match. */
  datatype Option<+T> = None | Some(value: T)

  const TWO_32: int := 0x1_0000_0000
  const TWO_64: int := 0x1_0000_0000_0000_0000

  newtype u16 = x: int | 0 <= x < 0x1_0000
  newtype u32 = x: int | 0 <= x < 0x1_0000_0000
  newtype u64 = x: int | 0 <= x < 0x1_0000_0000_0000_0000
  newtype i64 = x: int | -0x8000_0000_0000_0000 <= x < 0x8000_0000_0000_0000

  const U64_MAX: u64 := 0xFFFF_FFFF_FFFF_FFFF

  /** The value an unsigned 32-bit register holds after computing `x`. */
  function Wrap32(x: int): (r: u32)
    ensures 0 <= x < TWO_32 ==> r as int == x
  {
    (x % TWO_32) as u32
  }

  /** The value an unsigned 64-bit register holds after computing `x`. */
  function Wrap64(x: int): (r: u64)
    ensures 0 <= x < TWO_64 ==> r as int == x
  {
    (x % TWO_64) as u64
  }

  /** The first index at or after `i` that holds a newline, or the end of
      the text if there is none. This is where a `$` with the multi-line
      flag first matches, and where a line of text ends. */
  function NextNewline(s: seq<char>, i: nat): (k: nat)
    requires i <= |s|
    ensures i <= k <= |s|
    ensures k == |s| || s[k] == '\n'
    ensures forall m :: i <= m < k ==> s[m] != '\n'
    decreases |s| - i
  {
    if i == |s| || s[i] == '\n' then i else NextNewline(s, i + 1)
  }

  /** Sum of a sequence of counters, as a mathematical integer. */
  function Sum(s: seq<u64>): nat
  {
    if |s| == 0 then 0 else Sum(s[..|s| - 1]) + s[|s| - 1] as nat
  }

  /** Replacing one element changes the sum by the difference. */
  lemma {:induction false} SumUpdate(s: seq<u64>, i: nat, v: u64)
    requires i < |s|
    ensures Sum(s[i := v]) == Sum(s) - s[i] as int + v as int
  {
    if i == |s| - 1 {
      assert s[i := v][..|s| - 1] == s[..|s| - 1];
    } else {
      assert s[i := v][..|s| - 1] == s[..|s| - 1][i := v];
      SumUpdate(s[..|s| - 1], i, v);
    }
  }

  /** A sequence of zeros sums to zero. */
  lemma {:induction false} SumZeros(s: seq<u64>)
    requires forall i :: 0 <= i < |s| ==> s[i] == 0
    ensures Sum(s) == 0
  {
    if |s| > 0 {
      SumZeros(s[..|s| - 1]);
    }
  }
}
