/**
 The sixteen-bit timer: its counter read and written a byte at a time through TEMP, and the flags it
 sets while it counts.
 */
module Timer16 {
  import Bitwise
  import opened Bytes
  import opened Wrappers
  import opened TimerCounter0

  /** Flags and, where the device has them, the two compare values. A running timer has a valid divisor. */
  datatype Registers16 = Registers16(tcnt: word, temp: byte, divisor: nat, tov: bool, ocfA: bool, ocfB: bool,
                                     ocrA: Option<word>, ocrB: Option<word>)

  // ----- counting -----

  /** The count n steps after c. */
  function After(c: word, n: nat): word {
    (c + n) % 0x1_0000
  }

  /** Steps from count c to value v, at least one, wrapping at 65536. */
  function Distance(c: word, v: word): nat {
    if v > c then v - c else v - c + 0x1_0000
  }

  /** The value is met within n counts. */
  predicate Meets(ocr: Option<word>, c: word, n: nat) {
    ocr.Some? && Distance(c, ocr.value) <= n
  }

  /** n counts at once. */
  function Advance(t: Registers16, n: nat): Registers16 {
    t.(tcnt := After(t.tcnt, n), tov := t.tov || t.tcnt + n >= 0x1_0000,
       ocfA := t.ocfA || Meets(t.ocrA, t.tcnt, n), ocfB := t.ocfB || Meets(t.ocrB, t.tcnt, n))
  }

  /** The clock callback of a running timer. */
  function Increment16(t: Registers16, ck: nat): Registers16
    requires IsDivisor(t.divisor)
  {
    var tcnt := if Hit(ck, t.divisor) then (t.tcnt + 1) % 0x1_0000 else t.tcnt;
    if tcnt == t.tcnt then t
    else t.(tcnt := tcnt, tov := t.tov || tcnt == 0,
            ocfA := t.ocfA || t.ocrA == Some(tcnt), ocfB := t.ocfB || t.ocrB == Some(tcnt))
  }

  /** n clocks from count ck on. */
  function Count16(t: Registers16, ck: nat, n: nat): (t': Registers16)
    requires IsDivisor(t.divisor)
    ensures t'.temp == t.temp && t'.divisor == t.divisor
    decreases n
  {
    if n == 0 then t else Count16(Increment16(t, ck), ck + 1, n - 1)
  }

  lemma IncrementAdvances(t: Registers16, ck: nat)
    requires IsDivisor(t.divisor)
    ensures Increment16(t, ck) == Advance(t, if ck % t.divisor == 0 then 1 else 0)
  {
    HitIsMultiple(ck, t.divisor);
  }

  /** A first count of none or one, and then more. */
  lemma AdvanceTwice(t: Registers16, a: nat, b: nat)
    requires a <= 1
    ensures Advance(Advance(t, a), b) == Advance(t, a + b)
  {
    var c, c1 := t.tcnt, After(t.tcnt, a);
    assert c1 == if c + a == 0x1_0000 then 0 else c + a;
    Wraps(c, a, b, c1);
    assert forall v: word :: Distance(c, v) > a ==> Distance(c1, v) == Distance(c, v) - a;
  }

  lemma Wraps(c: word, a: nat, b: nat, c1: word)
    requires c1 == if c + a == 0x1_0000 then 0 else c + a
    ensures After(c1, b) == After(c, a + b)
  {
  }

  /** The first of n clocks, and what it leaves to the others. */
  lemma CountNext(t: Registers16, ck: nat, n: nat) returns (t1: Registers16)
    requires IsDivisor(t.divisor) && n > 0
    ensures t1.divisor == t.divisor && Count16(t, ck, n) == Count16(t1, ck + 1, n - 1)
    ensures Advance(t1, MultiplesIn(ck + 1, n - 1, t.divisor)) == Advance(t, MultiplesIn(ck, n, t.divisor))
  {
    t1 := Increment16(t, ck);
    IncrementAdvances(t, ck);
    MultiplesNext(ck, n, t.divisor);
    AdvanceTwice(t, if ck % t.divisor == 0 then 1 else 0, MultiplesIn(ck + 1, n - 1, t.divisor));
  }

  /**
   Over n clocks the counter advances by the multiples of the divisor among them modulo 65536; the
   overflow flag is set exactly if it was or the count passed 65535, and a compare flag exactly if it
   was or the count met the compare value on the way.
   */
  lemma {:induction false} CountsAndCompares(t: Registers16, ck: nat, n: nat)
    requires IsDivisor(t.divisor)
    ensures Count16(t, ck, n) == Advance(t, MultiplesIn(ck, n, t.divisor))
    decreases n
  {
    if n == 0 {
      assert Advance(t, 0) == t;
    } else {
      var t1 := CountNext(t, ck, n);
      CountsAndCompares(t1, ck + 1, n - 1);
    }
  }

  lemma DistanceIsLeast(c: word, v: word, j: nat)
    ensures After(c, Distance(c, v)) == v
    ensures 1 <= j && After(c, j) == v ==> Distance(c, v) <= j
  {
    if j < 0x1_0000 {
      assert After(c, j) == if c + j < 0x1_0000 then c + j else c + j - 0x1_0000;
    }
  }

  /** Meeting the compare value means that one of the n counts is that value. */
  lemma MeetsIsACount(c: word, v: word, n: nat)
    ensures Meets(Some(v), c, n) <==> exists j :: 1 <= j <= n && After(c, j) == v
  {
    DistanceIsLeast(c, v, 0);
    forall j: nat | 1 <= j <= n && After(c, j) == v ensures Distance(c, v) <= n {
      DistanceIsLeast(c, v, j);
    }
  }

  /** The value is one of the counts from c + 1 to c + k. */
  ghost predicate CountedTo(ocr: Option<word>, c: word, k: nat) {
    ocr.Some? && exists j :: 1 <= j <= k && After(c, j) == ocr.value
  }

  /** The same count by count: which flags n clocks set. */
  lemma CountsExactly(t: Registers16, ck: nat, n: nat)
    requires IsDivisor(t.divisor)
    ensures var k, t' := (ck + n + t.divisor - 1) / t.divisor - (ck + t.divisor - 1) / t.divisor, Count16(t, ck, n);
            && k >= 0 && t' == t.(tcnt := t'.tcnt, tov := t'.tov, ocfA := t'.ocfA, ocfB := t'.ocfB)
            && t'.tcnt == (t.tcnt + k) % 0x1_0000
            && (t'.tov <==> t.tov || t.tcnt + k >= 0x1_0000)
            && (t'.ocfA <==> t.ocfA || CountedTo(t.ocrA, t.tcnt, k))
            && (t'.ocfB <==> t.ocfB || CountedTo(t.ocrB, t.tcnt, k))
  {
    CountsAndCompares(t, ck, n);
    var k := MultiplesIn(ck, n, t.divisor);
    if t.ocrA.Some? {
      MeetsIsACount(t.tcnt, t.ocrA.value, k);
    }
    if t.ocrB.Some? {
      MeetsIsACount(t.tcnt, t.ocrB.value, k);
    }
  }

  // ----- one byte at a time -----

  /** Reading the low byte puts the high byte aside in TEMP; reading the high byte reads TEMP. */
  function ReadLow(t: Registers16): (byte, Registers16) {
    (t.tcnt % 256, t.(temp := t.tcnt / 256))
  }

  /** Writing the high byte puts it in TEMP; writing the low byte sets both. */
  function WriteLow(t: Registers16, val: byte): Registers16 {
    t.(tcnt := t.temp * 256 + val)
  }

  /** Low byte first, and the high byte any number of clocks later, read the count at the first read. */
  lemma ReadIsSnapshot(t: Registers16, ck: nat, n: nat)
    requires IsDivisor(t.divisor)
    ensures var (low, t1) := ReadLow(t); Count16(t1, ck, n).temp * 256 + low == t.tcnt
  {
  }

  /** High byte first, and the low byte any number of clocks later, set the count at the second write. */
  lemma WriteIsAtomic(t: Registers16, high: byte, low: byte, ck: nat, n: nat)
    requires IsDivisor(t.divisor)
    ensures WriteLow(Count16(t.(temp := high), ck, n), low).tcnt == high * 256 + low
  {
  }

  // ----- the simulator's own form -----

  class Device16 {
    var tcnt: word
    var temp: byte
    var divisor: nat
    var tov: bool
    var ocfA: bool
    var ocfB: bool
    const ocrA: Option<word>
    const ocrB: Option<word>

    ghost function State(): Registers16
      reads this
    {
      Registers16(tcnt, temp, divisor, tov, ocfA, ocfB, ocrA, ocrB)
    }

    constructor (ocrA: Option<word>, ocrB: Option<word>)
      ensures State() == Registers16(0, 0, 0, false, false, false, ocrA, ocrB)
    {
      this.ocrA, this.ocrB := ocrA, ocrB;
      tcnt, temp, divisor, tov, ocfA, ocfB := 0, 0, 0, false, false, false;
    }

    method ReadTcntL() returns (val: byte)
      modifies `temp
      ensures (val, State()) == ReadLow(old(State()))
    {
      temp := tcnt / 256;
      val := tcnt % 256;
    }

    method ReadTcntH() returns (val: byte)
      ensures val == State().temp
    {
      val := temp;
    }

    method WriteTcntL(val: byte)
      modifies `tcnt
      ensures State() == WriteLow(old(State()), val)
    {
      tcnt := temp as int * 256 + val;
    }

    method WriteTcntH(val: byte)
      modifies `temp
      ensures State() == old(State()).(temp := val)
    {
      temp := val;
    }

    method ClkIncrCb(ck: nat)
      requires IsDivisor(divisor)
      modifies `tcnt, `tov, `ocfA, `ocfB
      ensures State() == Increment16(old(State()), ck)
    {
      var last := tcnt;
      if Bitwise.And(ck, divisor - 1) == 0 {
        tcnt := (tcnt + 1) % 0x1_0000;
      }
      if tcnt != last {
        if tcnt == 0 {
          tov := true;
        }
        if ocrA.Some? && tcnt == ocrA.value {
          ocfA := true;
        }
        if ocrB.Some? && tcnt == ocrB.value {
          ocfB := true;
        }
      }
    }
  }
}
