/**
 Self programming: the page buffer, page erase, page write, and reading flash back with ELPM.
 */
module Spm {
  import opened Bytes
  import opened Bitwise
  import opened FlashMemory

  const PAGE_WORDS := 128
  const PAGE_BYTES := 256

  const FILL: byte := 0x01
  const ERASE: byte := 0x03
  const WRITE: byte := 0x05
  const REENABLE: byte := 0x11

  /** What self programming works on: flash, the page buffer and the control register SPMCSR. */
  datatype Store = Store(words: seq<word>, buffer: seq<byte>, csr: byte)

  /** Stopped stands for the errors that end the simulator. */
  datatype Result = Done(store: Store) | Stopped

  /** Bit k of a byte, tested as the source tests it with a mask. */
  predicate HasBit(val: byte, mask: nat)
    requires mask > 0
  {
    val / mask % 2 == 1
  }

  /** The values SPMCSR can be given. Bit tests refuse some of them before the list of values is consulted. */
  predicate AcceptsCsr(val: byte) {
    !HasBit(val, 0x80) && !HasBit(val, 0x20) && !HasBit(val, 0x08) && val in {0x01, 0x11, 0x09, 0x05, 0x03}
  }

  lemma AcceptedValues(val: byte)
    ensures AcceptsCsr(val) <==> val == 0x01 || val == 0x03 || val == 0x05 || val == 0x11
    ensures AcceptsCsr(val) <==> val in {FILL, ERASE, WRITE, REENABLE}
  {
  }

  // ----- addresses -----

  /** The word of the page buffer that the byte address z selects. */
  function BufferOffset(z: nat): nat {
    And(z, 0xfe)
  }

  /** The first flash word of the page that the byte address z selects. */
  function PageBase(z: nat): nat {
    And(z / 2, 0xff80)
  }

  lemma AndEven(a: nat, b: nat, twice: nat)
    requires twice == 2 * b
    ensures And(a, twice) == 2 * And(a / 2, b)
  {
    AndDigit(a, twice);
    Division(And(a, twice), 2);
  }

  lemma AndQuadruple(a: nat, b: nat, times4: nat)
    requires times4 == 4 * b
    ensures And(a, times4) == 4 * And(a / 4, b)
  {
    var half := a / 2;
    assert half / 2 == a / 4;
    AndEven(half, b, 2 * b);
    AndEven(a, 2 * b, times4);
  }

  lemma AndPageMask(x: nat, mask: nat, shifted: nat)
    requires shifted == 128 * mask
    ensures And(x, shifted) == 128 * And(x / 128, mask)
  {
    var q1, q2, q3 := x / 4, x / 16, x / 64;
    AndQuadruple(x, 32 * mask, shifted);
    AndQuadruple(q1, 8 * mask, 32 * mask);
    AndQuadruple(q2, 2 * mask, 8 * mask);
    AndEven(q3, mask, 2 * mask);
    assert q1 / 4 == q2 && q2 / 4 == q3 && q3 / 2 == x / 128;
  }

  /** Offset and page in ordinary arithmetic. The page number keeps nine bits. */
  lemma AddressesAre(z: nat)
    ensures BufferOffset(z) == z / 2 % 128 * 2
    ensures PageBase(z) == z / 2 / 128 % 512 * 128
  {
    assert Pow2(7) == 128 && Pow2(9) == 512 by {
      Pow2Values();
      assert Pow2(6) == 64;
    }
    AndEven(z, 127, 0xfe);
    AndLowMask(z / 2, 7);
    AndPageMask(z / 2, 511, 0xff80);
    AndLowMask(z / 2 / 128, 9);
  }

  /** The page erased and written is the one z lies in exactly when z is below 128 KB, that is RAMPZ is at most 1. */
  lemma PageIsWhereZPoints(z: nat)
    requires z < 0x40_0000
    ensures PageBase(z) <= z / 2 < PageBase(z) + PAGE_WORDS <==> z < 0x2_0000
  {
    AddressesAre(z);
    var page := z / 2 / 128;
    Division(z / 2, 128);
    Division(page, 512);
  }

  // ----- what the operations do -----

  function MergeWord(w: word, low: byte, high: byte): word {
    var h: int := And(w / 256, high);
    h * 256 + And(w % 256, low)
  }

  /** The first n words of the page at base set to ones. */
  function EraseFirst(words: seq<word>, base: nat, n: nat): (r: seq<word>)
    ensures |r| == |words|
  {
    seq(|words|, k requires 0 <= k < |words| => if base <= k < base + n then 0xffff else words[k])
  }

  /** The first n words of the page at base ANDed with the buffer. */
  function MergeFirst(words: seq<word>, base: nat, n: nat, buffer: seq<byte>): (r: seq<word>)
    requires |buffer| == PAGE_BYTES && n <= PAGE_WORDS
    ensures |r| == |words|
  {
    seq(|words|, k requires 0 <= k < |words| =>
      if base <= k < base + n then MergeWord(words[k], buffer[2 * (k - base)], buffer[2 * (k - base) + 1]) else words[k])
  }

  function Ones(n: nat): (bs: seq<byte>)
    ensures |bs| == n
  {
    seq(n, _ => 0xff)
  }

  /** Execute SPM with the given values of R0, R1 and the extended Z pointer. */
  function Run(s: Store, r0: byte, r1: byte, z: nat): (r: Result)
    requires |s.buffer| == PAGE_BYTES
    ensures r.Done? ==> |r.store.buffer| == PAGE_BYTES && |r.store.words| == |s.words| && r.store.csr == 0
  {
    if s.csr == REENABLE then Done(s.(buffer := Ones(PAGE_BYTES), csr := 0))
    else if s.csr == FILL then
      AddressesAre(z);
      Done(s.(buffer := s.buffer[BufferOffset(z) := r0][BufferOffset(z) + 1 := r1], csr := 0))
    else if s.csr == ERASE then
      if PageBase(z) + PAGE_WORDS > |s.words| then Stopped
      else Done(s.(words := EraseFirst(s.words, PageBase(z), PAGE_WORDS), csr := 0))
    else if s.csr == WRITE then
      if PageBase(z) + PAGE_WORDS > |s.words| then Stopped
      else Done(s.(words := MergeFirst(s.words, PageBase(z), PAGE_WORDS, s.buffer), csr := 0))
    else Stopped
  }

  /** Set SPMCSR, then execute SPM. */
  datatype Step = Step(csr: byte, r0: byte, r1: byte, z: nat)

  function Perform(s: Store, step: Step): (r: Result)
    requires |s.buffer| == PAGE_BYTES
    ensures r.Done? ==> |r.store.buffer| == PAGE_BYTES && |r.store.words| == |s.words|
  {
    if AcceptsCsr(step.csr) then Run(s.(csr := step.csr), step.r0, step.r1, step.z) else Stopped
  }

  function PerformAll(s: Store, steps: seq<Step>): (r: Result)
    requires |s.buffer| == PAGE_BYTES
    ensures r.Done? ==> |r.store.buffer| == PAGE_BYTES && |r.store.words| == |s.words|
    decreases |steps|
  {
    if steps == [] then Done(s)
    else
      var r := Perform(s, steps[0]);
      if r.Done? then PerformAll(r.store, steps[1..]) else Stopped
  }

  lemma {:induction false} PerformAppend(s: Store, first: seq<Step>, last: seq<Step>)
    requires |s.buffer| == PAGE_BYTES
    ensures var r := PerformAll(s, first);
            PerformAll(s, first + last) == if r.Done? then PerformAll(r.store, last) else Stopped
    decreases |first|
  {
    if first == [] {
      assert first + last == last;
    } else {
      assert (first + last)[0] == first[0] && (first + last)[1..] == first[1..] + last;
      var r := Perform(s, first[0]);
      if r.Done? {
        PerformAppend(r.store, first[1..], last);
      }
    }
  }

  // ----- the four operations by their codes -----

  /** The first word of the page that z selects; the page number keeps nine bits. */
  function PageStart(z: nat): nat {
    z / 2 / 128 % 512 * 128
  }

  /** 0x03 erases: every word of the page becomes 0xffff, other words and the buffer stay. */
  lemma Code03Erases(s: Store, r0: byte, r1: byte, z: nat)
    requires |s.buffer| == 256 && s.csr == 0x03
    ensures var r, base := Run(s, r0, r1, z), PageStart(z);
            if base + 128 > |s.words| then r == Stopped
            else r.Done? && r.store == s.(words := r.store.words, csr := 0) && |r.store.words| == |s.words|
                 && forall k :: 0 <= k < |s.words| ==>
                      r.store.words[k] == if base <= k < base + 128 then 0xffff else s.words[k]
  {
    AddressesAre(z);
  }

  /** 0x05 writes: every word of the page is ANDed with its word of the buffer, low byte first; all else stays. */
  lemma Code05Writes(s: Store, r0: byte, r1: byte, z: nat)
    requires |s.buffer| == 256 && s.csr == 0x05
    ensures var r, base := Run(s, r0, r1, z), PageStart(z);
            if base + 128 > |s.words| then r == Stopped
            else r.Done? && r.store == s.(words := r.store.words, csr := 0) && |r.store.words| == |s.words|
                 && forall k :: 0 <= k < |s.words| ==>
                      if base <= k < base + 128 then
                        && r.store.words[k] % 256 == And(s.words[k] % 256, s.buffer[2 * (k - base)])
                        && r.store.words[k] / 256 == And(s.words[k] / 256, s.buffer[2 * (k - base) + 1])
                      else r.store.words[k] == s.words[k]
  {
    AddressesAre(z);
    var base := PageStart(z);
    if base + 128 <= |s.words| {
      forall k | base <= k < base + 128
        ensures var w := Run(s, r0, r1, z).store.words[k];
                && w % 256 == And(s.words[k] % 256, s.buffer[2 * (k - base)])
                && w / 256 == And(s.words[k] / 256, s.buffer[2 * (k - base) + 1])
      {
        MergeBytes(s.words[k], s.buffer[2 * (k - base)], s.buffer[2 * (k - base) + 1]);
      }
    }
  }

  /** 0x01 fills: R0 and R1 go to the two bytes of the buffer that z selects; all else stays. */
  lemma Code01Fills(s: Store, r0: byte, r1: byte, z: nat)
    requires |s.buffer| == 256 && s.csr == 0x01
    ensures var r, at := Run(s, r0, r1, z), z / 2 % 128 * 2;
            && r.Done? && r.store == s.(buffer := r.store.buffer, csr := 0) && |r.store.buffer| == 256
            && r.store.buffer[at] == r0 && r.store.buffer[at + 1] == r1
            && forall j :: 0 <= j < 256 && j != at && j != at + 1 ==> r.store.buffer[j] == s.buffer[j]
  {
    AddressesAre(z);
  }

  /** 0x11 clears the buffer to ones; flash stays. Any other code stops the simulator. */
  lemma Code11Clears(s: Store, r0: byte, r1: byte, z: nat)
    requires |s.buffer| == 256
    ensures s.csr == 0x11 ==> Run(s, r0, r1, z) == Done(Store(s.words, seq(256, _ => 0xff), 0))
    ensures s.csr != 0x01 && s.csr != 0x03 && s.csr != 0x05 && s.csr != 0x11 ==> Run(s, r0, r1, z) == Stopped
  {
    assert Ones(256) == seq(256, _ => 0xff);
  }

  // ----- a page write is a bitwise AND -----

  function BufferWord(buffer: seq<byte>, i: nat): word
    requires 2 * i + 1 < |buffer|
  {
    var high: int := buffer[2 * i + 1];
    high * 256 + buffer[2 * i]
  }

  lemma MergeBytes(w: word, low: byte, high: byte)
    ensures MergeWord(w, low, high) / 256 == And(w / 256, high)
    ensures MergeWord(w, low, high) % 256 == And(w % 256, low)
  {
  }

  lemma MergeTwice(w: word, low: byte, high: byte)
    ensures MergeWord(MergeWord(w, low, high), low, high) == MergeWord(w, low, high)
  {
    MergeBytes(w, low, high);
    AndIdempotent(w / 256, high);
    AndIdempotent(w % 256, low);
  }

  /** Ones take on whatever is merged into them. */
  lemma MergeIntoOnes(w: word, low: byte, high: byte)
    requires w == 0xffff
    ensures MergeWord(w, low, high) / 256 == high && MergeWord(w, low, high) % 256 == low
  {
    var ones := w / 256;
    AndCommutes(ones, low);
    AndCommutes(ones, high);
    AndFull(low, ones);
    AndFull(high, ones);
    MergeBytes(w, low, high);
  }

  /** Writing the same page again changes nothing. */
  lemma PageWriteIdempotent(s: Store, r0: byte, r1: byte, z: nat)
    requires |s.buffer| == PAGE_BYTES
    requires Perform(s, Step(WRITE, r0, r1, z)).Done?
    ensures var once := Perform(s, Step(WRITE, r0, r1, z)).store;
            Perform(once, Step(WRITE, r0, r1, z)) == Done(once)
  {
    var base := PageBase(z);
    var once := MergeFirst(s.words, base, PAGE_WORDS, s.buffer);
    var twice := MergeFirst(once, base, PAGE_WORDS, s.buffer);
    forall k | 0 <= k < |s.words| ensures twice[k] == once[k] {
      if base <= k < base + PAGE_WORDS {
        MergeTwice(s.words[k], s.buffer[2 * (k - base)], s.buffer[2 * (k - base) + 1]);
      }
    }
    assert twice == once;
  }

  /** Every bit set in w' is set in w. */
  ghost predicate BitsWithin(w': word, w: word) {
    forall i: nat :: (Bit(w' / 256, i) ==> Bit(w / 256, i)) && (Bit(w' % 256, i) ==> Bit(w % 256, i))
  }

  ghost predicate OnlyClears(before: seq<word>, after: seq<word>) {
    |after| == |before| && forall k :: 0 <= k < |before| ==> BitsWithin(after[k], before[k])
  }

  lemma MergeWithin(w: word, low: byte, high: byte)
    ensures BitsWithin(MergeWord(w, low, high), w)
  {
    MergeBytes(w, low, high);
    forall i: nat
      ensures (Bit(And(w / 256, high), i) ==> Bit(w / 256, i)) && (Bit(And(w % 256, low), i) ==> Bit(w % 256, i))
    {
      AndBit(w / 256, high, i);
      AndBit(w % 256, low, i);
    }
  }

  lemma StepOnlyClears(s: Store, step: Step)
    requires |s.buffer| == PAGE_BYTES && Perform(s, step).Done? && step.csr != ERASE
    ensures OnlyClears(s.words, Perform(s, step).store.words)
  {
    AcceptedValues(step.csr);
    var after := Perform(s, step).store.words;
    if step.csr == WRITE {
      var base := PageBase(step.z);
      forall k | 0 <= k < |s.words| ensures BitsWithin(after[k], s.words[k]) {
        if base <= k < base + PAGE_WORDS {
          MergeWithin(s.words[k], s.buffer[2 * (k - base)], s.buffer[2 * (k - base) + 1]);
        }
      }
    }
  }

  /** Without an erase, flash bits only go from 1 to 0, however long the session. */
  lemma {:induction false} WithoutEraseOnlyClears(s: Store, steps: seq<Step>)
    requires |s.buffer| == PAGE_BYTES && PerformAll(s, steps).Done?
    requires forall i :: 0 <= i < |steps| ==> steps[i].csr != ERASE
    ensures OnlyClears(s.words, PerformAll(s, steps).store.words)
    decreases |steps|
  {
    if steps != [] {
      StepOnlyClears(s, steps[0]);
      var s1 := Perform(s, steps[0]).store;
      WithoutEraseOnlyClears(s1, steps[1..]);
      var after := PerformAll(s1, steps[1..]).store.words;
      forall k | 0 <= k < |s.words| ensures BitsWithin(after[k], s.words[k]) {
        assert BitsWithin(after[k], s1.words[k]) && BitsWithin(s1.words[k], s.words[k]);
      }
    }
  }

  /** The step erases or writes the page that word k is in. */
  predicate Touches(step: Step, k: nat) {
    (step.csr == ERASE || step.csr == WRITE) && PageBase(step.z) <= k < PageBase(step.z) + PAGE_WORDS
  }

  /** Words in pages that no step erases or writes keep their values. */
  lemma {:induction false} OtherPagesKeep(s: Store, steps: seq<Step>, k: nat)
    requires |s.buffer| == PAGE_BYTES && PerformAll(s, steps).Done?
    requires k < |s.words| && forall i :: 0 <= i < |steps| ==> !Touches(steps[i], k)
    ensures PerformAll(s, steps).store.words[k] == s.words[k]
    decreases |steps|
  {
    if steps != [] {
      AcceptedValues(steps[0].csr);
      OtherPagesKeep(Perform(s, steps[0]).store, steps[1..], k);
    }
  }

  // ----- programming a page -----

  /** A fill that carries its bytes of the content. */
  predicate CarriesContent(step: Step, content: seq<byte>)
    requires |content| == PAGE_BYTES
  {
    AddressesAre(step.z);
    step.csr == FILL && step.r0 == content[BufferOffset(step.z)] && step.r1 == content[BufferOffset(step.z) + 1]
  }

  predicate Fills(steps: seq<Step>, content: seq<byte>)
    requires |content| == PAGE_BYTES
  {
    forall i :: 0 <= i < |steps| ==> CarriesContent(steps[i], content)
  }

  /** Some step fills the buffer at the given offset. */
  predicate Filled(steps: seq<Step>, offset: nat) {
    exists i :: 0 <= i < |steps| && BufferOffset(steps[i].z) == offset
  }

  /** Word o of the buffer holds the content if a fill addresses it, and else what it held before. */
  ghost predicate FilledWord(before: seq<byte>, steps: seq<Step>, after: seq<byte>, content: seq<byte>, o: nat)
    requires |before| == |after| == PAGE_BYTES == |content| && o < PAGE_WORDS
  {
    if Filled(steps, 2 * o) then HoldsWord(after, content, o) else SameWord(after, before, o)
  }

  /** After fills, in any order and with repetitions, the offsets filled hold the content; flash is untouched. */
  lemma {:induction false} FillsLoadBuffer(s: Store, steps: seq<Step>, content: seq<byte>)
    requires |s.buffer| == PAGE_BYTES == |content| && Fills(steps, content)
    ensures PerformAll(s, steps).Done? && PerformAll(s, steps).store.words == s.words
    ensures forall o :: 0 <= o < PAGE_WORDS ==> FilledWord(s.buffer, steps, PerformAll(s, steps).store.buffer, content, o)
    decreases |steps|
  {
    if steps != [] {
      AcceptedValues(FILL);
      assert CarriesContent(steps[0], content);
      var s1 := Perform(s, steps[0]).store;
      assert forall i :: 0 <= i < |steps[1..]| ==> CarriesContent(steps[1..][i], content);
      FillsLoadBuffer(s1, steps[1..], content);
      var s2 := PerformAll(s, steps).store;
      forall o | 0 <= o < PAGE_WORDS
        ensures FilledWord(s.buffer, steps, s2.buffer, content, o)
      {
        FillStep(s, steps[0], s1, content, o);
        FilledByFirstOrLater(steps, 2 * o);
        assert FilledWord(s1.buffer, steps[1..], s2.buffer, content, o);
      }
    }
  }

  predicate HoldsWord(buffer: seq<byte>, content: seq<byte>, o: nat)
    requires |buffer| == PAGE_BYTES == |content| && o < PAGE_WORDS
  {
    buffer[2 * o] == content[2 * o] && buffer[2 * o + 1] == content[2 * o + 1]
  }

  predicate SameWord(buffer: seq<byte>, before: seq<byte>, o: nat)
    requires |buffer| == PAGE_BYTES == |before| && o < PAGE_WORDS
  {
    HoldsWord(buffer, before, o)
  }

  lemma FillStep(s: Store, step: Step, s1: Store, content: seq<byte>, o: nat)
    requires |s.buffer| == PAGE_BYTES == |content| && o < PAGE_WORDS
    requires CarriesContent(step, content) && Perform(s, step) == Done(s1)
    ensures if BufferOffset(step.z) == 2 * o then HoldsWord(s1.buffer, content, o) else SameWord(s1.buffer, s.buffer, o)
  {
    AddressesAre(step.z);
    StoreWord(s.buffer, step.z / 2 % 128, step.r0, step.r1, o);
  }

  lemma StoreWord(buffer: seq<byte>, at: nat, low: byte, high: byte, o: nat)
    requires |buffer| == PAGE_BYTES && at < PAGE_WORDS && o < PAGE_WORDS
    ensures var b := buffer[2 * at := low][2 * at + 1 := high];
            if at == o then b[2 * o] == low && b[2 * o + 1] == high else SameWord(b, buffer, o)
  {
  }

  lemma FilledByFirstOrLater(steps: seq<Step>, offset: nat)
    requires steps != []
    ensures Filled(steps, offset) <==> BufferOffset(steps[0].z) == offset || Filled(steps[1..], offset)
  {
    if i :| 0 < i < |steps| && BufferOffset(steps[i].z) == offset {
      assert steps[1..][i - 1] == steps[i];
    }
    if Filled(steps[1..], offset) {
      var i :| 0 <= i < |steps[1..]| && BufferOffset(steps[1..][i].z) == offset;
      assert steps[i + 1] == steps[1..][i];
    }
  }

  function PageWord(words: seq<word>, base: nat, content: seq<byte>, k: nat): word
    requires |content| == PAGE_BYTES && k < |words|
  {
    if base <= k < base + PAGE_WORDS then BufferWord(content, k - base) else words[k]
  }

  /** Flash with the page at base holding the content, low byte of each word first. */
  function PageReplaced(words: seq<word>, base: nat, content: seq<byte>): (r: seq<word>)
    requires |content| == PAGE_BYTES
    ensures |r| == |words|
  {
    seq(|words|, k requires 0 <= k < |words| => PageWord(words, base, content, k))
  }

  /**
   Erase, fill every word of the buffer, write: flash then holds the content in that page and is
   otherwise what it was. The fills can come in any order.
   */
  lemma ProgramsPage(s: Store, z: nat, base: nat, fills: seq<Step>, content: seq<byte>)
    requires |s.buffer| == PAGE_BYTES == |content| && base == PageBase(z) && base + PAGE_WORDS <= |s.words|
    requires Fills(fills, content) && forall o :: 0 <= o < PAGE_WORDS ==> Filled(fills, 2 * o)
    ensures var r := PerformAll(s, [Step(ERASE, 0, 0, z)] + fills + [Step(WRITE, 0, 0, z)]);
            r.Done? && r.store.words == PageReplaced(s.words, base, content)
  {
    AcceptedValues(ERASE);
    AcceptedValues(WRITE);
    var erase, write := [Step(ERASE, 0, 0, z)], [Step(WRITE, 0, 0, z)];
    var erased := Perform(s, erase[0]).store;
    SingleStep(s, erase);
    PerformAppend(s, erase, fills);
    FillsLoadBuffer(erased, fills, content);
    var loaded := PerformAll(erased, fills).store;
    SingleStep(loaded, write);
    PerformAppend(s, erase + fills, write);
    assert loaded.buffer == content by {
      forall o | 0 <= o < PAGE_WORDS ensures HoldsWord(loaded.buffer, content, o) {
        assert FilledWord(erased.buffer, fills, loaded.buffer, content, o);
      }
      SameBuffer(loaded.buffer, content);
    }
    MergeErased(s.words, base, content);
  }

  lemma SingleStep(s: Store, steps: seq<Step>)
    requires |s.buffer| == PAGE_BYTES && |steps| == 1
    ensures PerformAll(s, steps) == Perform(s, steps[0])
  {
    var r := Perform(s, steps[0]);
    assert r.Done? ==> PerformAll(r.store, steps[1..]) == r;
  }

  lemma SameBuffer(a: seq<byte>, b: seq<byte>)
    requires |a| == PAGE_BYTES == |b|
    requires forall o :: 0 <= o < PAGE_WORDS ==> HoldsWord(a, b, o)
    ensures a == b
  {
    forall i | 0 <= i < |a| ensures a[i] == b[i] {
      assert HoldsWord(a, b, i / 2);
    }
  }

  lemma MergeErased(words: seq<word>, base: nat, content: seq<byte>)
    requires |content| == PAGE_BYTES && base + PAGE_WORDS <= |words|
    ensures MergeFirst(EraseFirst(words, base, PAGE_WORDS), base, PAGE_WORDS, content) == PageReplaced(words, base, content)
  {
    var erased := EraseFirst(words, base, PAGE_WORDS);
    var merged := MergeFirst(erased, base, PAGE_WORDS, content);
    forall k | 0 <= k < |words| ensures merged[k] == PageWord(words, base, content, k) {
      if base <= k < base + PAGE_WORDS {
        MergeIntoOnes(erased[k], content[2 * (k - base)], content[2 * (k - base) + 1]);
      }
    }
  }

  // ----- the simulator's own form -----

  lemma EraseStep(words: seq<word>, base: nat, n: nat)
    requires base + n < |words|
    ensures EraseFirst(words, base, n)[base + n := 0xffff] == EraseFirst(words, base, n + 1)
  {
  }

  lemma MergeStep(words: seq<word>, base: nat, n: nat, buffer: seq<byte>)
    requires |buffer| == PAGE_BYTES && n < PAGE_WORDS && base + n < |words|
    ensures MergeFirst(words, base, n, buffer)[base + n] == words[base + n]
    ensures MergeFirst(words, base, n, buffer)[base + n := MergeWord(words[base + n], buffer[2 * n], buffer[2 * n + 1])]
            == MergeFirst(words, base, n + 1, buffer)
  {
  }

  class SpmHelper {
    const flash: Flash
    const pageBuffer: array<byte>
    var csr: byte

    ghost predicate Valid() {
      pageBuffer.Length == PAGE_BYTES && pageBuffer != flash.data
    }

    ghost function State(): Store
      reads this, pageBuffer, flash.data
    {
      Store(flash.Words(), pageBuffer[..], csr)
    }

    constructor (flash: Flash)
      ensures Valid() && this.flash == flash && fresh(pageBuffer)
      ensures State() == Store(flash.Words(), Ones(PAGE_BYTES), 0)
    {
      this.flash := flash;
      pageBuffer := new byte[PAGE_BYTES](_ => 0xff);
      csr := 0;
    }

    method WriteCsr(val: byte) returns (ok: bool)
      modifies `csr
      ensures ok == AcceptsCsr(val)
      ensures csr == if ok then val else old(csr)
    {
      if HasBit(val, 0x80) || HasBit(val, 0x20) || HasBit(val, 0x08) {
        return false;
      }
      match val {
        case 0x01 | 0x11 | 0x09 | 0x05 | 0x03 => csr := val; return true;
        case _ => return false;
      }
    }

    method ReenableRww()
      requires Valid()
      modifies pageBuffer
      ensures pageBuffer[..] == Ones(PAGE_BYTES)
    {
      for i := 0 to PAGE_BYTES
        invariant forall j :: 0 <= j < i ==> pageBuffer[j] == 0xff
      {
        pageBuffer[i] := 0xff;
      }
    }

    method ErasePage(base: nat) returns (ok: bool)
      modifies flash.data
      ensures ok <==> base + PAGE_WORDS <= |old(flash.Words())|
      ensures ok ==> flash.Words() == EraseFirst(old(flash.Words()), base, PAGE_WORDS)
    {
      ghost var words := flash.Words();
      for i := 0 to PAGE_WORDS
        invariant flash.Words() == EraseFirst(words, base, i)
        invariant i > 0 ==> base + i <= |words|
      {
        if 2 * (base + i) + 1 >= flash.data.Length {
          return false;
        }
        EraseStep(words, base, i);
        flash.Write(base + i, 0xffff);
      }
      ok := true;
    }

    method AndWord(k: nat, low: byte, high: byte)
      requires 2 * k + 1 < flash.data.Length
      modifies flash.data
      ensures flash.Words() == old(flash.Words())[k := MergeWord(old(flash.Words())[k], low, high)]
    {
      var f := flash.Read(k);
      var lo: byte := And(f % 256, low);
      var hi: byte := And(f / 256, high);
      flash.Write(k, hi as int * 256 + lo);
    }

    method WritePage(base: nat) returns (ok: bool)
      requires Valid()
      modifies flash.data
      ensures ok <==> base + PAGE_WORDS <= |old(flash.Words())|
      ensures ok ==> flash.Words() == MergeFirst(old(flash.Words()), base, PAGE_WORDS, pageBuffer[..])
    {
      ghost var words := flash.Words();
      for i := 0 to PAGE_WORDS
        invariant flash.Words() == MergeFirst(words, base, i, pageBuffer[..])
        invariant i > 0 ==> base + i <= |words|
      {
        if 2 * (base + i) + 1 >= flash.data.Length {
          return false;
        }
        MergeStep(words, base, i, pageBuffer[..]);
        AndWord(base + i, pageBuffer[2 * i], pageBuffer[2 * i + 1]);
      }
      ok := true;
    }

    /** The SPM instruction's work; false where the simulator stops. */
    method SpmRun(reg0: byte, reg1: byte, z: nat) returns (ok: bool)
      requires Valid()
      modifies this, pageBuffer, flash.data
      ensures Run(old(State()), reg0, reg1, z) == if ok then Done(State()) else Stopped
    {
      if csr == 0x11 {
        ReenableRww();
        csr := 0;
        return true;
      }
      if csr == 0x01 {
        AddressesAre(z);
        var offset := And(z, 0xfe);
        pageBuffer[offset] := reg0;
        pageBuffer[offset + 1] := reg1;
        csr := 0;
        return true;
      }
      if csr == 0x03 {
        ok := ErasePage(And(z / 2, 0xff80));
        csr := 0;
        return;
      }
      if csr == 0x05 {
        ok := WritePage(And(z / 2, 0xff80));
        csr := 0;
        return;
      }
      ok := false;
    }
  }
}
