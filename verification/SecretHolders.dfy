/** The short-lived holder of one plaintext secret: one page-rounded buffer, read through scoped
    views, erased on release. Whether the kernel grants or refuses a pin is an arbitrary input. */
module SecretHolders {
  import opened ByteArrays
  import opened Wrappers

  /** The attempt to pin the buffer, and what is recorded of it. */
  datatype PinAnswer = Granted | Refused(errno: int) | Unavailable

  /** ((size + page - 1) // page) * page */
  function RoundToPage(size: nat, page: nat): nat
    requires page > 0
  {
    ((size + page - 1) / page) * page
  }

  /** The least whole number of pages that holds `size` bytes. */
  lemma RoundToPageIsLeast(size: nat, page: nat)
    requires page > 0
    ensures RoundToPage(size, page) % page == 0
    ensures size <= RoundToPage(size, page) < size + page
    ensures forall k: nat :: k * page >= size ==> k * page >= RoundToPage(size, page)
  {
    var q := (size + page - 1) / page;
    var r := (size + page - 1) % page;
    assert size + page - 1 == q * page + r;
    MultipleOfPage(q, page);
    forall k: nat | k * page >= size ensures k * page >= q * page {
      if k < q {
        assert (k + 1) * page <= q * page by { MulMonotone(k + 1, q, page); }
      } else {
        MulMonotone(q, k, page);
      }
    }
  }

  lemma MulMonotone(a: nat, b: nat, page: nat)
    requires a <= b
    ensures a * page <= b * page
  {}

  lemma MultipleOfPage(q: nat, page: nat)
    requires page > 0
    ensures (q * page) % page == 0
  {
    var m, d := (q * page) % page, (q * page) / page;
    assert q * page == d * page + m;
    if d < q {
      MulMonotone(d + 1, q, page);
    } else {
      MulMonotone(q, d, page);
    }
  }

  // ----- the holder as values: what each operation answers and leaves behind

  /** An eraser run to its end, or stopped after some bytes: by an exception, which release handles,
      or by an interrupt, which it lets through. The last interrupt comes after the erased buffer was
      looked at and before the release is recorded. */
  datatype EraseRun = Completes | RaisesAfter(n: nat) | InterruptedAfter(n: nat) | InterruptedOnceChecked

  datatype UnpinRun = Unpins | Refuses | InterruptedInUnpin

  datatype Operation = View | Release(erase: EraseRun, unpin: UnpinRun)

  datatype Answer = Shown(secret: Bytes) | AlreadyReleased | Reported(zeroized: bool) | Interrupted

  datatype State = State(buffer: Bytes, length: nat, released: bool, zeroized: bool, pinned: bool, pinActive: bool)

  /** The state of a new holder: the secret, zero padding up to a whole page, and the pin's answer. */
  function Held(secret: Bytes, page: nat, pin: PinAnswer): State
    requires page > 0
  {
    RoundToPageIsLeast(|secret|, page);
    State(secret + Zeros(RoundToPage(|secret|, page) - |secret|), |secret|, false, false, pin.Granted?, pin.Granted?)
  }

  /** The first n bytes overwritten, or all there are. */
  function Wiped(buffer: Bytes, n: nat): (r: Bytes)
    ensures |r| == |buffer|
  {
    if n <= |buffer| then Zeros(n) + buffer[n..] else Zeros(|buffer|)
  }

  /** How many bytes an eraser run overwrites. */
  function Reach(erase: EraseRun, size: nat): nat {
    match erase
    case Completes => size
    case RaisesAfter(n) => n
    case InterruptedAfter(n) => n
    case InterruptedOnceChecked => size
  }

  /** The run is not interrupted, so the release gets recorded. */
  predicate Settles(erase: EraseRun) { erase.Completes? || erase.RaisesAfter? }

  function Next(s: State, op: Operation): State {
    match op
    case View => s
    case Release(erase, unpin) =>
      if s.released then s
      else
        var wiped := s.(buffer := Wiped(s.buffer, Reach(erase, |s.buffer|)));
        if !Settles(erase) then wiped.(zeroized := s.zeroized || erase.InterruptedOnceChecked?)
        else
          var settled := wiped.(released := true, zeroized := erase.Completes?);
          if s.pinned && unpin.InterruptedInUnpin? then settled
          else settled.(pinned := s.pinned && unpin.Refuses?, pinActive := false)
  }

  function Answered(s: State, op: Operation): Answer
    requires s.length <= |s.buffer|
  {
    match op
    case View => if s.released then AlreadyReleased else Shown(s.buffer[..s.length])
    case Release(erase, unpin) =>
      if !s.released && (!Settles(erase) || (s.pinned && unpin.InterruptedInUnpin?)) then Interrupted
      else Reported(Next(s, op).zeroized)
  }

  /** The state before operation i of a run. */
  function After(s: State, ops: seq<Operation>, i: nat): State
    requires i <= |ops|
  {
    if i == 0 then s else Next(After(s, ops, i - 1), ops[i - 1])
  }

  /** The index of the first release that gets recorded, or the length of the run. */
  function FirstRelease(ops: seq<Operation>): (k: nat)
    ensures k <= |ops|
    ensures k < |ops| ==> ops[k].Release? && Settles(ops[k].erase)
    ensures forall i | 0 <= i < k :: ops[i].View? || !Settles(ops[i].erase)
  {
    if ops == [] || (ops[0].Release? && Settles(ops[0].erase)) then 0 else 1 + FirstRelease(ops[1..])
  }

  function Max(m: nat, n: nat): nat { if m < n then n else m }

  /** The most bytes an interrupted release among the first i operations overwrote. */
  function WipedBy(ops: seq<Operation>, i: nat, size: nat): nat
    requires i <= |ops|
  {
    if i == 0 then 0
    else
      var op := ops[i - 1];
      Max(WipedBy(ops, i - 1, size), if op.Release? && !Settles(op.erase) then Reach(op.erase, size) else 0)
  }

  /** One of the first i operations was interrupted when it had found the buffer zeroed. */
  predicate CheckedBy(ops: seq<Operation>, i: nat)
    requires i <= |ops|
  {
    exists j | 0 <= j < i :: ops[j].Release? && ops[j].erase.InterruptedOnceChecked?
  }

  lemma WipedTwice(buffer: Bytes, m: nat, n: nat)
    ensures Wiped(Wiped(buffer, m), n) == Wiped(buffer, Max(m, n))
    ensures Wiped(buffer, 0) == buffer
  {
    hide Wiped;
    var twice, once, none := Wiped(Wiped(buffer, m), n), Wiped(buffer, Max(m, n)), Wiped(buffer, 0);
    forall i | 0 <= i < |buffer| ensures twice[i] == once[i] && none[i] == buffer[i] {
      WipedAt(buffer, m, i);
      WipedAt(Wiped(buffer, m), n, i);
      WipedAt(buffer, Max(m, n), i);
      WipedAt(buffer, 0, i);
    }
  }

  lemma WipedAt(buffer: Bytes, n: nat, i: nat)
    requires i < |buffer|
    ensures Wiped(buffer, n)[i] == if i < n then 0 else buffer[i]
  {}

  /** Before the first recorded release only interrupted ones leave a trace, in the buffer; after it
      nothing changes any more. */
  lemma {:induction false} RunState(s: State, ops: seq<Operation>, i: nat)
    requires i <= |ops| && !s.released
    ensures var k := FirstRelease(ops);
            After(s, ops, i) ==
            if i <= k
            then s.(buffer := Wiped(s.buffer, WipedBy(ops, i, |s.buffer|)), zeroized := s.zeroized || CheckedBy(ops, i))
            else Next(After(s, ops, k), ops[k])
  {
    hide Wiped;
    var k := FirstRelease(ops);
    WipedTwice(s.buffer, 0, 0);
    if i > 0 {
      RunState(s, ops, i - 1);
      if i <= k {
        var op := ops[i - 1];
        WipedTwice(s.buffer, WipedBy(ops, i - 1, |s.buffer|), if op.Release? then Reach(op.erase, |s.buffer|) else 0);
        assert CheckedBy(ops, i) <==> CheckedBy(ops, i - 1) || (op.Release? && op.erase.InterruptedOnceChecked?);
      } else if i - 1 <= k {
        assert i - 1 == k;
      } else {
        assert After(s, ops, i - 1).released by { RunState(s, ops, k); }
      }
    }
  }

  lemma WipedHeld(secret: Bytes, page: nat, pin: PinAnswer, n: nat)
    requires page > 0
    ensures var b := Wiped(Held(secret, page, pin).buffer, n);
            && |b| == RoundToPage(|secret|, page) >= |secret|
            && b[..|secret|] == Wiped(secret, n) && AllZero(b[|secret|..])
  {
    RoundToPageIsLeast(|secret|, page);
  }

  /** Over every run: each view before the first recorded release shows the secret, less what
      interrupted releases have overwritten, and is refused from then on; every release after it
      reports what that one observed. */
  lemma RunAnswers(secret: Bytes, page: nat, pin: PinAnswer, ops: seq<Operation>, i: nat)
    requires page > 0 && i < |ops|
    ensures var s, k := After(Held(secret, page, pin), ops, i), FirstRelease(ops);
            && s.length <= |s.buffer|
            && Answered(s, ops[i]) ==
               if ops[i].View? then (if i <= k then Shown(Wiped(secret, WipedBy(ops, i, |s.buffer|))) else AlreadyReleased)
               else if i < k || (i == k && pin.Granted? && ops[k].unpin.InterruptedInUnpin?) then Interrupted
               else Reported(ops[k].erase.Completes?)
  {
    hide Wiped, WipedBy, RoundToPage;
    var k := FirstRelease(ops);
    RunState(Held(secret, page, pin), ops, i);
    RunState(Held(secret, page, pin), ops, k);
    WipedHeld(secret, page, pin, WipedBy(ops, i, |Held(secret, page, pin).buffer|));
    WipedHeld(secret, page, pin, WipedBy(ops, k, |Held(secret, page, pin).buffer|));
    WipedHeld(secret, page, pin, 0);
    WipedTwice(Held(secret, page, pin).buffer, 0, 0);
  }

  /** So a live view shows exactly the secret if and only if no interrupted release overwrote a byte
      of it that was not zero already; in particular when none was interrupted. */
  lemma ViewShowsSecretExactly(secret: Bytes, page: nat, pin: PinAnswer, ops: seq<Operation>, i: nat)
    requires page > 0 && i < |ops| && ops[i].View? && i <= FirstRelease(ops)
    ensures var s := After(Held(secret, page, pin), ops, i);
            var m := WipedBy(ops, i, |s.buffer|);
            && s.length <= |s.buffer|
            && (Answered(s, ops[i]) == Shown(secret) <==> AllZero(secret[..if m <= |secret| then m else |secret|]))
    ensures (forall j | 0 <= j < i :: ops[j].View?) ==>
              WipedBy(ops, i, |After(Held(secret, page, pin), ops, i).buffer|) == 0
  {
    hide Held, After, Answered, RoundToPage, WipedBy, FirstRelease;
    RunAnswers(secret, page, pin, ops, i);
    WipedIsSame(secret, WipedBy(ops, i, |After(Held(secret, page, pin), ops, i).buffer|));
    if forall j | 0 <= j < i :: ops[j].View? {
      NothingWiped(ops, i, |After(Held(secret, page, pin), ops, i).buffer|);
    }
  }

  lemma WipedIsSame(secret: Bytes, m: nat)
    ensures Wiped(secret, m) == secret <==> AllZero(secret[..if m <= |secret| then m else |secret|])
  {
    var n := if m <= |secret| then m else |secret|;
    forall i | 0 <= i < n ensures Wiped(secret, m)[i] == 0 && secret[..n][i] == secret[i] {}
    if AllZero(secret[..n]) {
      assert Wiped(secret, m) == secret;
    }
  }

  lemma {:induction false} NothingWiped(ops: seq<Operation>, i: nat, size: nat)
    requires i <= |ops| && forall j | 0 <= j < i :: ops[j].View?
    ensures WipedBy(ops, i, size) == 0
  {
    if i > 0 {
      NothingWiped(ops, i - 1, size);
    }
  }

  /** Over every run: a live holder is the secret, less what interrupted releases have overwritten,
      followed by zeros to the end of its pages; a holder that reports having zeroized holds only
      zeros; and only an interrupted unpin leaves a released holder reporting a pin, only a refused or
      interrupted one leaves it pinned. */
  lemma RunBuffer(secret: Bytes, page: nat, pin: PinAnswer, ops: seq<Operation>, i: nat)
    requires page > 0 && i <= |ops|
    ensures var s, k := After(Held(secret, page, pin), ops, i), FirstRelease(ops);
            && |s.buffer| == RoundToPage(|secret|, page) >= |secret|
            && (s.released <==> i > k)
            && (!s.released ==>
                  s.buffer[..|secret|] == Wiped(secret, WipedBy(ops, i, |s.buffer|)) && AllZero(s.buffer[|secret|..]))
            && (s.zeroized ==> AllZero(s.buffer) && (s.released || CheckedBy(ops, i)))
            && (s.pinActive <==> pin.Granted? && (!s.released || ops[k].unpin.InterruptedInUnpin?))
            && (s.pinned <==> pin.Granted? && (!s.released || !ops[k].unpin.Unpins?))
  {
    hide Wiped, WipedBy, RoundToPage, CheckedBy;
    var held, k := Held(secret, page, pin), FirstRelease(ops);
    RunState(held, ops, i);
    RunState(held, ops, k);
    WipedHeld(secret, page, pin, WipedBy(ops, i, |held.buffer|));
    WipedHeld(secret, page, pin, WipedBy(ops, k, |held.buffer|));
    WipedAll(After(held, ops, k).buffer);
    if i <= k && CheckedBy(ops, i) {
      CheckedIsWiped(ops, i, |held.buffer|);
      WipedMore(held.buffer, WipedBy(ops, i, |held.buffer|));
    }
  }

  lemma WipedAll(buffer: Bytes)
    ensures AllZero(Wiped(buffer, |buffer|))
  {}

  lemma WipedMore(buffer: Bytes, n: nat)
    requires n >= |buffer|
    ensures AllZero(Wiped(buffer, n))
  {}

  lemma {:induction false} CheckedIsWiped(ops: seq<Operation>, i: nat, size: nat)
    requires i <= |ops| && CheckedBy(ops, i)
    ensures WipedBy(ops, i, size) >= size
  {
    if i > 0 && CheckedBy(ops, i - 1) {
      CheckedIsWiped(ops, i - 1, size);
    }
  }

  /** What the first recorded release leaves: zeros, or, if the eraser raised after n bytes, zeros up
      to there and the rest as it was. */
  lemma ReleasedBuffer(secret: Bytes, page: nat, pin: PinAnswer, ops: seq<Operation>, i: nat)
    requires page > 0 && FirstRelease(ops) < i <= |ops|
    ensures var before, after := After(Held(secret, page, pin), ops, FirstRelease(ops)).buffer, After(Held(secret, page, pin), ops, i).buffer;
            var erase := ops[FirstRelease(ops)].erase;
            && |after| == |before|
            && (erase.Completes? ==> AllZero(after))
            && (erase.RaisesAfter? && erase.n <= |after| ==> AllZero(after[..erase.n]) && after[erase.n..] == before[erase.n..])
  {
    RunState(Held(secret, page, pin), ops, i);
    RunState(Held(secret, page, pin), ops, FirstRelease(ops));
    hide Held, RoundToPage;
  }

  /** It happens: a release interrupted after some bytes, not all zero, leaves a live holder that
      shows another secret. */
  lemma InterruptedReleaseShows(secret: Bytes, page: nat, pin: PinAnswer, n: nat, unpin: UnpinRun)
    requires page > 0 && n <= |secret| && !AllZero(secret[..n])
    ensures var s := After(Held(secret, page, pin), [Release(InterruptedAfter(n), unpin), View], 1);
            s.length <= |s.buffer| && Answered(s, View) == Shown(Zeros(n) + secret[n..]) != Shown(secret)
  {
    var ops := [Release(InterruptedAfter(n), unpin), View];
    assert FirstRelease(ops) == 2 by { assert ops[1..] == [View] && [View][1..] == []; }
    RunAnswers(secret, page, pin, ops, 1);
    var size := |After(Held(secret, page, pin), ops, 1).buffer|;
    assert WipedBy(ops, 1, size) == Max(WipedBy(ops, 0, size), n) == n;
    WipedIsSame(secret, n);
    hide Held, RoundToPage;
  }

  // ----- the class

  class SecretHolder {
    var data: ByteArray
    var length: nat
    var released: bool
    var zeroized: bool
    var pinned: bool
    var pinAttempted: bool
    var pinActive: bool
    var pinErrno: Option<int>

    ghost predicate Valid()
      reads this, data
    {
      length <= |data.bytes| && pinAttempted
    }

    ghost function Value(): State
      reads this, data
    {
      State(data.bytes, length, released, zeroized, pinned, pinActive)
    }

    /** An empty secret is refused by `Create`, so a holder always holds something. */
    constructor (secret: Bytes, page: nat, pin: PinAnswer)
      requires page > 0
      ensures Valid() && fresh(data)
      ensures Value() == Held(secret, page, pin)
      ensures pinErrno == match pin case Refused(e) => Some(e) case _ => None
    {
      RoundToPageIsLeast(|secret|, page);
      length := |secret|;
      data := new ByteArray(Zeros(RoundToPage(|secret|, page)));
      released, zeroized, pinned := false, false, false;
      pinAttempted, pinActive, pinErrno := false, false, None;
      new;
      data.bytes := secret + data.bytes[|secret|..];
      AttemptPin(pin);
    }

    method AttemptPin(pin: PinAnswer)
      modifies this
      ensures data == old(data) && length == old(length) && released == old(released) && zeroized == old(zeroized)
      ensures pinAttempted
      ensures match pin
              case Granted => pinned && pinActive && pinErrno == old(pinErrno)
              case Refused(e) => pinned == old(pinned) && pinActive == old(pinActive) && pinErrno == Some(e)
              case Unavailable => pinned == old(pinned) && pinActive == old(pinActive) && pinErrno == old(pinErrno)
    {
      pinAttempted := true;
      match pin
      case Refused(e) => pinErrno := Some(e);
      case Unavailable =>
      case Granted => pinned, pinActive := true, true;
    }

    method GetView() returns (view: Option<MemoryView>)
      requires Valid()
      ensures view.None? <==> Answered(Value(), View) == AlreadyReleased
      ensures view.Some? ==>
                && view.value == MemoryView(data, length) && view.value.Valid()
                && Answered(Value(), View) == Shown(view.value.Content())
    {
      if released {
        return None;
      }
      return Some(MemoryView(data, length));
    }

    method DoRelease(erase: EraseRun, unpin: UnpinRun) returns (answer: Answer)
      requires Valid()
      modifies this, data
      ensures Valid() && data == old(data)
      ensures Value() == Next(old(Value()), Release(erase, unpin))
      ensures answer == Answered(old(Value()), Release(erase, unpin))
    {
      if released {
        return Reported(zeroized);
      }
      EraseBuffer(Reach(erase, |data.bytes|));
      match erase {
        case InterruptedAfter(_) => return Interrupted;
        case RaisesAfter(_) => zeroized := false;
        case _ => zeroized := forall i | 0 <= i < |data.bytes| :: data.bytes[i] == 0;
      }
      if erase.InterruptedOnceChecked? {
        return Interrupted;
      }
      released := true;
      if pinned {
        match unpin
        case InterruptedInUnpin => return Interrupted;
        case Unpins => pinned := false;
        case Refuses =>
      }
      pinActive := false;
      return Reported(zeroized);
    }

    /** The eraser, run over the first n bytes. */
    method EraseBuffer(n: nat)
      requires Valid()
      modifies data
      ensures data.bytes == Wiped(old(data.bytes), n)
      ensures n >= |data.bytes| ==> AllZero(data.bytes)
    {
      if n < |data.bytes| {
        data.ErasePrefix(n);
        assert data.bytes == data.bytes[..n] + data.bytes[n..];
      } else {
        data.Erase();
      }
    }
  }

  /** The constructor's own refusal. */
  method Create(secret: Bytes, page: nat, pin: PinAnswer) returns (holder: SecretHolder?)
    requires page > 0
    ensures holder == null <==> secret == []
    ensures holder != null ==> fresh(holder) && fresh(holder.data) && holder.Valid() && holder.Value() == Held(secret, page, pin)
  {
    if |secret| == 0 {
      return null;
    }
    holder := new SecretHolder(secret, page, pin);
  }
}
