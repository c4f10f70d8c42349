/** The wire protocol of the jrk read queries, as poller.cpp speaks it: one
    opcode byte out, one 2-byte little-endian reply frame back, and the way a
    reply word is turned into a report according to the opcode it answers. */
module JrkProtocol {
  import opened Text

  // Read-query opcodes (poller.cpp, lines 17-20).
  const ReadInput: Byte := 0xa1
  const ReadFeedback: Byte := 0xa3
  const ReadTarget: Byte := 0xa5
  const ReadErrors: Byte := 0xb5

  /** The byte `WriteJRKCommand` puts on the wire for a command that the
      source asserts to lie in [0, 0x100). */
  function CommandByte(cmd: int): (b: Byte)
    requires 0 <= cmd < 0x100
    ensures b == cmd
  {
    cmd % 0x100
  }

  /** One 2-byte reply as `read` stores it: `lo` is valbuf[0], `hi` valbuf[1]. */
  datatype Frame = Frame(lo: Byte, hi: Byte)

  /** The reply word: little-endian assembly of the frame. */
  function Word(f: Frame): (w: nat)
    ensures w < 0x10000
    ensures w % 0x100 == f.lo && w / 0x100 == f.hi
  {
    f.hi * 256 + f.lo
  }

  /** The frame a device sends for word `w`. */
  function FrameOf(w: nat): (f: Frame)
    requires w < 0x10000
  {
    Frame(w % 0x100, w / 0x100)
  }

  lemma FrameWordRoundTrip(f: Frame, w: nat)
    requires w < 0x10000
    ensures FrameOf(Word(f)) == f
    ensures Word(FrameOf(w)) == w
  {
  }

  /** The 13 error flags of the jrk error-status word. */
  datatype ErrorFlag =
    | AwaitingCmd | NoPower | DriveError | InvalidInput | InputDisconn
    | FdbckDisconn | AmpsExceeded | SerialSig | UARTOflow | SerialOflow
    | SerialCRC | SerialProto | TimeoutRX

  /** Bit position of a flag in the error word. */
  function Bit(f: ErrorFlag): (k: nat)
    ensures k < FlagCount
  {
    match f
    case AwaitingCmd => 0
    case NoPower => 1
    case DriveError => 2
    case InvalidInput => 3
    case InputDisconn => 4
    case FdbckDisconn => 5
    case AmpsExceeded => 6
    case SerialSig => 7
    case UARTOflow => 8
    case SerialOflow => 9
    case SerialCRC => 10
    case SerialProto => 11
    case TimeoutRX => 12
  }

  const FlagCount: nat := 13

  /** The flags in the order the source tests them (poller.cpp, lines 138-150). */
  const FlagOrder: seq<ErrorFlag> :=
    [AwaitingCmd, NoPower, DriveError, InvalidInput, InputDisconn,
     FdbckDisconn, AmpsExceeded, SerialSig, UARTOflow, SerialOflow,
     SerialCRC, SerialProto, TimeoutRX]

  /** The mask the source tests for each flag (poller.cpp, lines 138-150). */
  function Mask(f: ErrorFlag): (m: nat)
    ensures 0 < m < 0x2000
  {
    match f
    case AwaitingCmd => 0x0001
    case NoPower => 0x0002
    case DriveError => 0x0004
    case InvalidInput => 0x0008
    case InputDisconn => 0x0010
    case FdbckDisconn => 0x0020
    case AmpsExceeded => 0x0040
    case SerialSig => 0x0080
    case UARTOflow => 0x0100
    case SerialOflow => 0x0200
    case SerialCRC => 0x0400
    case SerialProto => 0x0800
    case TimeoutRX => 0x1000
  }

  /** The text the source prints for each flag (poller.cpp, lines 138-150). */
  function Name(f: ErrorFlag): (n: string)
    ensures |n| >= 7 && 'A' <= n[0] <= 'Z'
  {
    match f
    case AwaitingCmd => "AwaitingCmd"
    case NoPower => "NoPower"
    case DriveError => "DriveError"
    case InvalidInput => "InvalidInput"
    case InputDisconn => "InputDisconn"
    case FdbckDisconn => "FdbckDisconn"
    case AmpsExceeded => "AmpsExceeded"
    case SerialSig => "SerialSig"
    case UARTOflow => "UARTOflow"
    case SerialOflow => "SerialOflow"
    case SerialCRC => "SerialCRC"
    case SerialProto => "SerialProto"
    case TimeoutRX => "TimeoutRX"
  }

  /** No two flags print the same name. */
  lemma NamesDistinct(f: ErrorFlag, g: ErrorFlag)
    ensures Name(f) == Name(g) <==> f == g
  {
    if Name(f) == Name(g) {
      assert |Name(f)| == |Name(g)| && Name(f)[0] == Name(g)[0] && Name(f)[1] == Name(g)[1];
    }
  }

  function Pow2(k: nat): (p: nat)
    ensures p >= 1
  {
    if k == 0 then 1 else 2 * Pow2(k - 1)
  }

  lemma Pow2Values()
    ensures Pow2(0) == 0x0001 && Pow2(1) == 0x0002 && Pow2(2) == 0x0004
    ensures Pow2(3) == 0x0008 && Pow2(4) == 0x0010 && Pow2(5) == 0x0020
    ensures Pow2(6) == 0x0040 && Pow2(7) == 0x0080 && Pow2(8) == 0x0100
    ensures Pow2(9) == 0x0200 && Pow2(10) == 0x0400 && Pow2(11) == 0x0800
    ensures Pow2(12) == 0x1000
  {
    assert Pow2(3) == 0x0008;
    assert Pow2(6) == 0x0040;
    assert Pow2(9) == 0x0200;
  }

  /** The masks are the powers of two 2^0 .. 2^12 in bit order, and the
      order of the source's tests is the bit order. */
  lemma FlagLayout(f: ErrorFlag)
    ensures Mask(f) == Pow2(Bit(f))
    ensures FlagOrder[Bit(f)] == f
  {
    Pow2Values();
  }

  lemma FlagLayoutAt(k: nat)
    requires k < FlagCount
    ensures Bit(FlagOrder[k]) == k
    ensures forall f :: Bit(f) == k ==> f == FlagOrder[k]
  {
    forall f | Bit(f) == k ensures f == FlagOrder[k] {
      FlagLayout(f);
    }
  }

  /** Bit `k` of `w`, counting from the least significant bit. */
  predicate BitAt(w: nat, k: nat)
    decreases k
  {
    if k == 0 then w % 2 == 1 else BitAt(w / 2, k - 1)
  }

  /** Bit `k` of `w` is what `w & 2^k` tests. */
  lemma {:induction false} BitAtIsMaskTest(w: nat, k: nat)
    ensures BitAt(w, k) <==> (w / Pow2(k)) % 2 == 1
    decreases k
  {
    if k > 0 {
      BitAtIsMaskTest(w / 2, k - 1);
      HalfDivMod(w, Pow2(k - 1));
    }
  }

  /** Halving and then dividing by m splits w the same way as dividing by
      2 * m. */
  lemma HalfDivMod(w: nat, m: nat)
    requires m >= 1
    ensures w / 2 / m == w / (2 * m)
    ensures (w % (2 * m)) % 2 == w % 2
    ensures (w % (2 * m)) / 2 == (w / 2) % m
  {
    var h, b := w / 2, w % 2;
    var q, r := h / m, h % m;
    assert h == m * q + r;
    assert w == 2 * h + b;
    assert w == (2 * m) * q + (2 * r + b) by {
      assert (2 * m) * q == 2 * (m * q);
    }
    DivModUnique(w, 2 * m, q, 2 * r + b);
  }

  lemma DivUnique(w: nat, d: nat, q: nat, r: nat)
    requires d >= 1 && 0 <= r < d && w == d * q + r
    ensures w / d == q
  {
    var q' := w / d;
    var r' := w % d;
    assert w == d * q' + r';
    if q' < q {
      MulMonotone(d, q' + 1, q);
    } else if q' > q {
      MulMonotone(d, q + 1, q');
    }
  }

  lemma MulMonotone(d: nat, a: nat, b: nat)
    requires a <= b
    ensures d * a <= d * b
  {
    assert d * b == d * a + d * (b - a);
  }

  /** Whether the source prints flag `f` for word `w`, that is `w & Mask(f)`
      is non-zero. */
  predicate IsSet(w: nat, f: ErrorFlag) {
    BitAt(w, Bit(f))
  }

  /** `IsSet` is the test the source writes, `(w & Mask(f)) != 0`: for a
      power-of-two mask, the bit it holds is the quotient by the mask, taken
      modulo 2. */
  lemma IsSetIsMaskTest(w: nat, f: ErrorFlag)
    ensures IsSet(w, f) <==> (w / Mask(f)) % 2 == 1
  {
    FlagLayout(f);
    BitAtIsMaskTest(w, Bit(f));
  }

  /** The flags of `fs` that are set in `w`, in the order of `fs`. */
  function FlagsIn(w: nat, fs: seq<ErrorFlag>): (flags: seq<ErrorFlag>)
    ensures forall f :: f in flags <==> f in fs && IsSet(w, f)
    ensures InBitOrder(fs) ==> InBitOrder(flags)
    ensures |flags| <= |fs|
  {
    if fs == [] then []
    else
      var rest := FlagsIn(w, fs[1..]);
      HeadAndTail(fs);
      if IsSet(w, fs[0]) then
        if InBitOrder(fs) then HeadBelowRest(fs, rest); ConsInBitOrder(fs[0], rest); [fs[0]] + rest
        else [fs[0]] + rest
      else rest
  }

  lemma HeadAndTail(fs: seq<ErrorFlag>)
    requires fs != []
    ensures forall f :: f in fs <==> f == fs[0] || f in fs[1..]
  {
    assert fs == [fs[0]] + fs[1..];
  }

  /** In a list in bit order, the head's bit is below that of every later
      element. */
  lemma HeadBelowRest(fs: seq<ErrorFlag>, rest: seq<ErrorFlag>)
    requires fs != [] && InBitOrder(fs)
    requires forall g :: g in rest ==> g in fs[1..]
    ensures forall g :: g in rest ==> Bit(fs[0]) < Bit(g)
  {
    forall g | g in rest ensures Bit(fs[0]) < Bit(g) {
      var j :| 0 <= j < |fs[1..]| && fs[1..][j] == g;
      assert fs[j + 1] == g;
    }
  }

  lemma ConsInBitOrder(f: ErrorFlag, rest: seq<ErrorFlag>)
    requires InBitOrder(rest)
    requires forall g :: g in rest ==> Bit(f) < Bit(g)
    ensures InBitOrder([f] + rest)
  {
    var l := [f] + rest;
    forall i, j | 0 <= i < j < |l| ensures Bit(l[i]) < Bit(l[j]) {
      assert l[j] == rest[j - 1];
      assert rest[j - 1] in rest;
      if i > 0 {
        assert l[i] == rest[i - 1];
      }
    }
  }

  /** Strictly ascending bit positions, hence no flag twice. */
  predicate InBitOrder(fs: seq<ErrorFlag>) {
    forall i, j :: 0 <= i < j < |fs| ==> Bit(fs[i]) < Bit(fs[j])
  }

  lemma FlagOrderIsBitOrder()
    ensures InBitOrder(FlagOrder)
    ensures forall f :: f in FlagOrder
  {
    forall f ensures f in FlagOrder {
      FlagLayout(f);
    }
    forall i, j | 0 <= i < j < |FlagOrder| ensures Bit(FlagOrder[i]) < Bit(FlagOrder[j]) {
      FlagLayoutAt(i);
      FlagLayoutAt(j);
    }
  }

  /** The error flags reported for an error-status word, in bit order. */
  function DecodeErrors(w: nat): (flags: seq<ErrorFlag>)
    ensures forall f :: f in flags <==> IsSet(w, f)
    ensures InBitOrder(flags)
  {
    FlagOrderIsBitOrder();
    FlagsIn(w, FlagOrder)
  }

  lemma {:induction false} BitAtZero(k: nat)
    ensures !BitAt(0, k)
    decreases k
  {
    if k > 0 {
      BitAtZero(k - 1);
    }
  }

  /** A zero error word reports no flag at all. */
  lemma DecodeErrorsOfZero()
    ensures DecodeErrors(0) == []
  {
    forall f ensures !IsSet(0, f) {
      BitAtZero(Bit(f));
    }
    DecodeErrorsNoneSet(0);
  }

  /** A word with no flag bit set reports nothing. */
  lemma DecodeErrorsNoneSet(w: nat)
    requires forall f :: !IsSet(w, f)
    ensures DecodeErrors(w) == []
  {
    Leading(DecodeErrors(w));
  }

  lemma {:induction false} FlagsInAgree(w: nat, v: nat, fs: seq<ErrorFlag>)
    requires forall f :: f in fs ==> (IsSet(w, f) <==> IsSet(v, f))
    ensures FlagsIn(w, fs) == FlagsIn(v, fs)
    decreases |fs|
  {
    if fs != [] {
      assert fs[0] in fs;
      FlagsInAgree(w, v, fs[1..]);
    }
  }

  lemma {:induction false} FlagsInAllSet(w: nat, fs: seq<ErrorFlag>)
    requires forall f :: f in fs ==> IsSet(w, f)
    ensures FlagsIn(w, fs) == fs
    decreases |fs|
  {
    if fs != [] {
      assert fs[0] in fs;
      FlagsInAllSet(w, fs[1..]);
      assert fs == [fs[0]] + fs[1..];
    }
  }

  lemma DivModUnique(w: nat, d: nat, q: nat, r: nat)
    requires d >= 1 && 0 <= r < d && w == d * q + r
    ensures w / d == q && w % d == r
  {
    DivUnique(w, d, q, r);
  }

  /** Reducing modulo 2^n keeps every bit below n. */
  lemma {:induction false} BitAtMod(w: nat, k: nat, n: nat)
    requires k < n
    ensures BitAt(w % Pow2(n), k) <==> BitAt(w, k)
    decreases k
  {
    HalfDivMod(w, Pow2(n - 1));
    if k > 0 {
      BitAtMod(w / 2, k - 1, n - 1);
    }
  }

  /** Bits above 0x1000 never influence the reported flags. */
  lemma DecodeErrorsIgnoresHighBits(w: nat)
    ensures DecodeErrors(w) == DecodeErrors(w % 0x2000)
  {
    Pow2Values();
    assert Pow2(13) == 0x2000;
    forall f ensures IsSet(w, f) <==> IsSet(w % 0x2000, f) {
      BitAtMod(w, Bit(f), 13);
    }
    FlagsInAgree(w, w % 0x2000, FlagOrder);
  }

  /** The power of two 2^k has bit k and no other. */
  lemma {:induction false} BitAtPow2(k: nat, j: nat)
    ensures BitAt(Pow2(k), j) <==> j == k
    decreases j
  {
    if j > 0 {
      if k == 0 {
        BitAtZero(j - 1);
      } else {
        assert Pow2(k) / 2 == Pow2(k - 1);
        BitAtPow2(k - 1, j - 1);
      }
    }
  }

  /** With all 13 bits set, every flag is reported, once each, in the
      source's order. */
  lemma DecodeErrorsAllFlags()
    ensures DecodeErrors(0x1FFF) == FlagOrder
  {
    forall f ensures IsSet(0x1FFF, f) {
      IsSetIsMaskTest(0x1FFF, f);
      match f
      case AwaitingCmd =>
      case NoPower =>
      case DriveError =>
      case InvalidInput =>
      case InputDisconn =>
      case FdbckDisconn =>
      case AmpsExceeded =>
      case SerialSig =>
      case UARTOflow =>
      case SerialOflow =>
      case SerialCRC =>
      case SerialProto =>
      case TimeoutRX =>
    }
    FlagsInAllSet(0x1FFF, FlagOrder);
  }

  /** A word holding exactly one flag's mask reports exactly that flag. */
  lemma DecodeErrorsSingleFlag(f: ErrorFlag)
    ensures DecodeErrors(Mask(f)) == [f]
  {
    forall g ensures IsSet(Mask(f), g) <==> g == f {
      MaskHasOnlyItsBit(f, g);
    }
    SingletonInBitOrder(DecodeErrors(Mask(f)), f);
  }

  lemma MaskHasOnlyItsBit(f: ErrorFlag, g: ErrorFlag)
    ensures IsSet(Mask(f), g) <==> g == f
  {
    FlagLayout(f);
    FlagLayout(g);
    BitAtPow2(Bit(f), Bit(g));
  }

  lemma SingletonInBitOrder(flags: seq<ErrorFlag>, f: ErrorFlag)
    requires InBitOrder(flags)
    requires forall g :: g in flags <==> g == f
    ensures flags == [f]
  {
    assert f in flags;
    Leading(flags);
    if |flags| > 1 {
      assert false;
    }
  }

  /** The first two elements, when present, are members. */
  lemma Leading(flags: seq<ErrorFlag>)
    ensures |flags| > 0 ==> flags[0] in flags
    ensures |flags| > 1 ==> flags[1] in flags
  {
  }

  predicate IsKnownQuery(op: Byte) {
    op == ReadInput || op == ReadFeedback || op == ReadTarget || op == ReadErrors
  }

  /** What the poller reports for one reply (poller.cpp, lines 132-155). */
  datatype Reply =
    | Input(value: nat)                      // "Input is <word>"
    | Feedback(value: nat)                   // "Feedback is <word>"
    | Target(value: nat)                     // "Target is <word>"
    | Errors(flags: seq<ErrorFlag>)          // "Error bits: " and the flag names
    | UnexpectedCommand(opcode: Byte)        // "unexpected command <opcode>"

  /** The opcode of the query a reply answers. */
  function Query(r: Reply): Byte {
    match r
    case Input(_) => ReadInput
    case Feedback(_) => ReadFeedback
    case Target(_) => ReadTarget
    case Errors(_) => ReadErrors
    case UnexpectedCommand(op) => op
  }

  /** Interprets reply word `w` for the query `op` it answers. */
  function Decode(op: Byte, w: nat): (r: Reply)
    requires w < 0x10000
    ensures Query(r) == op
    ensures r.UnexpectedCommand? <==> !IsKnownQuery(op)
    ensures (r.Input? || r.Feedback? || r.Target?) ==> r.value == w
    ensures r.Errors? ==> r.flags == DecodeErrors(w)
  {
    if op == ReadInput then Input(w)
    else if op == ReadFeedback then Feedback(w)
    else if op == ReadTarget then Target(w)
    else if op == ReadErrors then Errors(DecodeErrors(w))
    else UnexpectedCommand(op)
  }
}
