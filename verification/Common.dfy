/** Constants, record types and machine arithmetic shared by the engines. */
module Common {
  const NUM_ORDERS: nat := 300_000
  const TOP_K: nat := 1_000
  const NUM_TABLES: nat := 4
  const CRITICAL_CUTOFF: int := 1_800
  const ORDER_TTL: int := 3_600
  const LARGE_QTY: real := 10.0
  const SCORE_SCALE: real := 100.0

  // The four ranking tables, in buffer order.
  const HEURISTIC: nat := 0
  const LARGE: nat := 1
  const PBT: nat := 2
  const CRITICAL: nat := 3

  const INT32_MIN: int := -0x8000_0000
  const TWO_32: int := 0x1_0000_0000

  type uint32 = x: int | 0 <= x < TWO_32

  datatype Option<+T> = None | Some(value: T)

  datatype PairInfo = PairInfo(ppsID: uint32, binTagID: uint32)
  {
    function Key(): nat { MakePairKey(ppsID, binTagID) }
  }

  /** One item-dictionary change: a TPID's contribution before and after. */
  datatype TPIDUpdate = TPIDUpdate(tpid: nat, oldContrib: real, newContrib: real)

  datatype OrderEvent = OrderEvent(orderID: nat, requiredQty: real, pbtDeadline: int,
                                   tpids: seq<nat>, binTags: seq<nat>, baseScore: real)

  /** Upper 32 bits the PPS id, lower 32 bits the BinTag id. */
  function MakePairKey(pps: uint32, binTag: uint32): nat { pps * TWO_32 + binTag }

  /** A key determines its pair. */
  lemma PairKeyInjective(a: PairInfo, b: PairInfo)
    requires a.Key() == b.Key()
    ensures a == b
  {
    assert a.Key() / TWO_32 == a.ppsID && b.Key() / TWO_32 == b.ppsID;
  }

  function Min(a: int, b: int): int { if a <= b then a else b }

  /** Two's complement reduction to 32 bits. */
  function Wrap32(x: int): (r: int)
    ensures INT32_MIN <= r < -INT32_MIN
    ensures INT32_MIN <= x < -INT32_MIN ==> r == x
    ensures (x - r) % TWO_32 == 0
  {
    (x - INT32_MIN) % TWO_32 + INT32_MIN
  }

  lemma Wrap32Unique(x: int, y: int)
    requires (x - y) % TWO_32 == 0
    ensures Wrap32(x) == Wrap32(y)
  {
    var q := (x - y) / TWO_32;
    assert x == y + q * TWO_32;
  }

  /** Reducing an operand early does not change a 32-bit sum. */
  lemma Wrap32Add(a: int, b: int)
    ensures Wrap32(Wrap32(a) + b) == Wrap32(a + b)
  {
    Wrap32Unique(Wrap32(a) + b, a + b);
  }

  /** Conversion of a real to an integer, toward zero. */
  function Trunc(x: real): (n: int)
    ensures x >= 0.0 ==> n as real <= x < n as real + 1.0
    ensures x < 0.0 ==> n as real - 1.0 < x <= n as real
  {
    if x >= 0.0 then x.Floor else -((-x).Floor)
  }

  /** Go's float to int32 conversion: toward zero in range, otherwise the value amd64 produces. */
  function ToInt32(x: real): (n: int)
    ensures INT32_MIN <= n < -INT32_MIN
  {
    var n := Trunc(x);
    if INT32_MIN <= n < -INT32_MIN then n else INT32_MIN
  }

  function Clamp(lo: int, hi: int, v: int): (r: int)
    requires lo <= hi
    ensures lo <= r <= hi
    ensures lo <= v <= hi ==> r == v
    ensures v < lo ==> r == lo
    ensures v > hi ==> r == hi
  {
    if v > hi then hi else if v < lo then lo else v
  }

  /** A base score in hundredths, cut toward zero, and held at lo or hi when it lies beyond. */
  ghost predicate ScaledBase(score: int, base: real, lo: int, hi: int)
  {
    && (lo as real <= 100.0 * base <= hi as real ==>
          if base >= 0.0 then 0 <= score && score as real <= 100.0 * base < score as real + 1.0
          else score <= 0 && score as real - 1.0 < 100.0 * base <= score as real)
    && (100.0 * base < lo as real ==> score == lo)
    && (100.0 * base > hi as real ==> score == hi)
  }

  /** The int16 range used by both Go engines, which never holds -32768. */
  function ClampI16(v: int): int { Clamp(-32767, 32767, v) }
}
