/** The meter poll engine: request frames and response decoders of the
    Mercury RS-485 protocol, the per-request phase machine and the cycle
    scheduler that walks the request list. */
module Mercury {
  import opened Bytes

  const TARIFFS: int := 2
  const BUF_SIZE: int := 20
  const S_ERROR: int := -1
  const S_SUCCESS: int := -2
  const RS485_ADDR: byte := 0
  const RS485_TIMEOUT: int := 200
  const RS485_DELAY: int := 3
  const INVALID_VALUE: int := 0x7fff_ffff

  /** The energy summaries the meter can be asked for. */
  datatype EnergyType = Total | CurDay | PrevDay | CurMonth | PrevMonth | Pr2Month | CurYear | PrevYear

  /** The public variables a request writes its result into. */
  datatype Quantity =
    | Volts(phase: nat) | Amps(phase: nat) | Watts(phase: nat) | Hertz
    | DisplayEnergy(tariff: nat) | CurDayEnergy(tariff: nat) | PrevDayEnergy(tariff: nat)

  /** The four request variants.  `ReadValue` carries the precision its
      answer is read in; `ReadEnergy` its summary type, which `reinitLoop`
      changes in place for the display requests. */
  datatype Req =
    | OpenChannel
    | ReadTime
    | ReadValue(value: Quantity, code: byte, prec: nat)
    | ReadEnergy(value: Quantity, etype: EnergyType, tariff: byte)

  datatype MercuryTime = MercuryTime(second: int, minute: int, hour: int, date: int, month: int, year: int)

  /** The two check bytes `computeCRC` writes after a span. */
  datatype Crc16 = Crc16(first: byte, second: byte)

  /** crc.h is not part of this model: any function of the span. */
  type CrcFn = seq<byte> -> Crc16

  /** FixNum.h is not part of this model: the conversion of a value read at
      `prec` decimal places into the one-place variable it is stored in. */
  type Rescale = (int, nat) -> int

  // ---------------------------------------------------------------- frames

  function ReqSize(r: Req): int {
    match r
    case OpenChannel => 11
    case ReadTime => 5
    case ReadValue(_, _, _) => 6
    case ReadEnergy(_, _, _) => 6
  }

  function ResSize(r: Req): (n: int)
    ensures 4 <= n < BUF_SIZE
  {
    match r
    case OpenChannel => 4
    case ReadTime => 11
    case ReadValue(_, _, _) => 6
    case ReadEnergy(_, _, _) => 19
  }

  /** The summary selector byte of `ReadEnergyReq::request` for the stored
      month `m`, truncated to a byte as the `uint8_t` holds it. */
  function Selector(t: EnergyType, m: int): byte {
    match t
    case Total => 0x00
    case CurDay => 0x40
    case PrevDay => 0x50
    case CurMonth => ((0x30 + m) % 256) as byte
    case PrevMonth => ((0x30 + (m + 10) % 12 + 1) % 256) as byte
    case Pr2Month => ((0x30 + (m + 9) % 12 + 1) % 256) as byte
    case CurYear => 0x10
    case PrevYear => 0x20
  }

  /** What `request()` puts at the front of `buf`, `month` being the last
      month read from the meter. */
  function Frame(r: Req, month: int): seq<byte> {
    match r
    case OpenChannel => [RS485_ADDR, 0x01, 0x01, 0x01, 0x01, 0x01, 0x01, 0x01, 0x01]
    case ReadTime => [RS485_ADDR, 0x04, 0x00]
    case ReadValue(_, code, _) => [RS485_ADDR, 0x08, 0x11, code]
    case ReadEnergy(_, t, tariff) => [RS485_ADDR, 0x05, Selector(t, month), tariff]
  }

  /** Every request frame leaves exactly the last two bytes of `req_size`
      for the check bytes. */
  lemma FrameSize(r: Req, month: int)
    ensures |Frame(r, month)| == ReqSize(r) - 2 && ReqSize(r) <= BUF_SIZE
    ensures Frame(r, month)[0] == RS485_ADDR
  {
  }

  /** For a month in 1..12 the month selectors name the current, the
      previous and the one-before-previous month, wrapping into 1..12. */
  lemma MonthSelector(m: int)
    requires 1 <= m <= 12
    ensures Selector(CurMonth, m) as int == 0x30 + m
    ensures Selector(PrevMonth, m) as int == 0x30 + (if m == 1 then 12 else m - 1)
    ensures Selector(Pr2Month, m) as int == 0x30 + (if m <= 2 then m + 10 else m - 2)
  {
    if m <= 2 {
      assert (m + 9) % 12 == m + 9;
      if m == 1 { assert (m + 10) % 12 == 11; } else { assert (m + 10) % 12 == 0; }
    } else {
      assert (m + 9) % 12 == m - 3;
      assert (m + 10) % 12 == m - 2;
    }
  }

  // ---------------------------------------------------------------- decoders

  /** `bcd`: two packed decimal digits. */
  function Bcd(x: byte): (r: int)
    ensures 0 <= r <= 165
    ensures r % 10 == (x as int % 16) % 10
  {
    x as int / 16 * 10 + x as int % 16
  }

  /** Packed decimal encoding of a number below 100. */
  function ToBcd(n: nat): (x: byte)
    requires n < 100
  {
    (n / 10 * 16 + n % 10) as byte
  }

  lemma {:induction false} BcdOfToBcd(n: nat)
    requires n < 100
    ensures Bcd(ToBcd(n)) == n
  {
    DivMod(n / 10, n % 10, 16);
  }

  /** A byte whose two nibbles are decimal digits is the encoding of what
      `bcd` reads from it. */
  lemma {:induction false} ToBcdOfBcd(x: byte)
    requires x as int / 16 <= 9 && x as int % 16 <= 9
    ensures Bcd(x) < 100 && ToBcd(Bcd(x)) == x
  {
    DivMod(x as int / 16, x as int % 16, 10);
  }

  /** `ReadTimeReq::response`: date and time from bytes 1, 2, 3, 5, 6, 7
      (byte 4, the day of the week, is skipped). */
  function DecodeTime(f: seq<byte>): MercuryTime
    requires |f| >= 8
  {
    MercuryTime(Bcd(f[1]), Bcd(f[2]), Bcd(f[3]), Bcd(f[5]), Bcd(f[6]), Bcd(f[7]))
  }

  /** `ReadValueReq::response`: `(b1 & 0x3f) << 16 | b3 << 8 | b2`.  The three
      fields occupy disjoint bits, so the or is their sum. */
  function DecodeValue(f: seq<byte>): (v: int)
    requires |f| >= 4
    ensures 0 <= v < 0x40_0000
  {
    (f[1] as int % 64) * 0x1_0000 + f[3] as int * 0x100 + f[2] as int
  }

  /** Any 22-bit reading survives the byte order of the meter's answer, and
      the two top bits of byte 1 are ignored. */
  lemma {:induction false} DecodeValueRoundTrip(v: int, flags: int, f: seq<byte>)
    requires 0 <= v < 0x40_0000 && 0 <= flags < 4 && |f| >= 4
    requires f[1] as int == flags * 64 + v / 0x1_0000
    requires f[2] as int == v % 0x100 && f[3] as int == v / 0x100 % 0x100
    ensures DecodeValue(f) == v
  {
    DivMod(flags, v / 0x1_0000, 64);
    DivMod(v / 0x100, v % 0x100, 0x100);
    DivMod(v / 0x1_0000, v / 0x100 % 0x100, 0x100);
    assert v / 0x100 / 0x100 == v / 0x1_0000;
  }

  /** `ReadEnergyReq::response`: the 32-bit word with bytes 2, 1, 4, 3 from
      most to least significant, read as the `int32_t` it is stored in. */
  function DecodeEnergy(f: seq<byte>): (v: int)
    requires |f| >= 5
    ensures -0x8000_0000 <= v < 0x8000_0000
  {
    ToInt32(f[2] as int * 0x100_0000 + f[1] as int * 0x1_0000 + f[4] as int * 0x100 + f[3] as int)
  }

  /** Any 32-bit signed reading survives the meter's word order. */
  lemma {:induction false} DecodeEnergyRoundTrip(v: int, f: seq<byte>)
    requires -0x8000_0000 <= v < 0x8000_0000 && |f| >= 5
    requires var u := v % 0x1_0000_0000;
             && f[3] == ByteAt(u, 0) && f[4] == ByteAt(u, 1) && f[1] == ByteAt(u, 2) && f[2] == ByteAt(u, 3)
    ensures DecodeEnergy(f) == v
  {
    var u := v % 0x1_0000_0000;
    var q1 := u / 0x100;
    var q2 := q1 / 0x100;
    var q3 := q2 / 0x100;
    assert ByteAt(u, 1) == ByteAt(q1, 0);
    assert ByteAt(u, 2) == ByteAt(q2, 0) by { assert ByteAt(u, 2) == ByteAt(q1, 1); }
    assert ByteAt(u, 3) == ByteAt(q3, 0) by {
      assert ByteAt(u, 3) == ByteAt(q1, 2);
      assert ByteAt(q1, 2) == ByteAt(q2, 1);
    }
    assert u == q1 * 0x100 + u % 0x100 && q1 == q2 * 0x100 + q1 % 0x100 && q2 == q3 * 0x100 + q2 % 0x100;
    assert q3 < 0x100 && q3 % 0x100 == q3;
    assert f[2] as int * 0x100_0000 + f[1] as int * 0x1_0000 + f[4] as int * 0x100 + f[3] as int == u;
    ToInt32Signed(v);
  }

  /** `OpenChannelReq::response` accepts iff byte 1 is 0x00; the others always accept. */
  predicate Accepts(r: Req, f: seq<byte>)
    requires |f| >= 2
  {
    r.OpenChannel? ==> f[1] == 0x00
  }

  /** Only the channel opener can reject an answer, and it writes nothing. */
  lemma RejectWritesNothing(r: Req, f: seq<byte>, vals: map<Quantity, int>, rescale: Rescale, t: MercuryTime)
    requires |f| >= ResSize(r) && !Accepts(r, f)
    ensures r.OpenChannel?
    ensures ParsedValues(r, f, vals, rescale) == vals && ParsedTime(r, f, t) == t
  {
  }

  /** The check bytes of a received frame agree with the CRC of its body. */
  predicate CrcOk(crc: CrcFn, f: seq<byte>)
    requires |f| >= 2
  {
    crc(f[..|f| - 2]) == Crc16(f[|f| - 2], f[|f| - 1])
  }

  /** The stored readings, zero where nothing was ever written (the globals
      are zero-initialised). */
  function Reading(vals: map<Quantity, int>, q: Quantity): int {
    if q in vals then vals[q] else 0
  }

  /** What `error()` writes: value and energy requests invalidate their
      target, the others write nothing. */
  function ErrorEffect(r: Req, vals: map<Quantity, int>): (w: map<Quantity, int>)
    ensures (r.ReadValue? || r.ReadEnergy?) ==> Reading(w, r.value) == INVALID_VALUE
    ensures forall q :: (!(r.ReadValue? || r.ReadEnergy?) || q != r.value) ==> Reading(w, q) == Reading(vals, q)
  {
    match r
    case ReadValue(q, _, _) => vals[q := INVALID_VALUE]
    case ReadEnergy(q, _, _) => vals[q := INVALID_VALUE]
    case _ => vals
  }

  /** What a successful `response()` writes to the readings. */
  function ParsedValues(r: Req, f: seq<byte>, vals: map<Quantity, int>, rescale: Rescale): map<Quantity, int>
    requires |f| >= ResSize(r)
  {
    match r
    case ReadValue(q, _, prec) => vals[q := rescale(DecodeValue(f), prec)]
    case ReadEnergy(q, _, _) => vals[q := DecodeEnergy(f)]
    case _ => vals
  }

  /** What a successful `response()` writes to the meter time. */
  function ParsedTime(r: Req, f: seq<byte>, t: MercuryTime): MercuryTime
    requires |f| >= ResSize(r)
  {
    if r.ReadTime? then DecodeTime(f) else t
  }

  // ---------------------------------------------------------------- the request list

  /** The display energy requests of `setupMercury`, one per tariff, with
      summary type `t`. */
  function DisplayReqs(t: EnergyType): seq<Req> {
    [ReadEnergy(DisplayEnergy(0), t, 0), ReadEnergy(DisplayEnergy(1), t, 1), ReadEnergy(DisplayEnergy(2), t, 2)]
  }

  /** The requests `setupMercury` appends after the display ones: voltage,
      current and power per phase (power also in total), the frequency, and
      today's and yesterday's energy per tariff. */
  function Meters(): seq<Req> {
    [ ReadValue(Volts(1), 0x11, 2), ReadValue(Volts(2), 0x12, 2), ReadValue(Volts(3), 0x13, 2),
      ReadValue(Amps(1), 0x21, 3), ReadValue(Amps(2), 0x22, 3), ReadValue(Amps(3), 0x23, 3),
      ReadValue(Watts(0), 0x00, 2), ReadValue(Watts(1), 0x01, 2), ReadValue(Watts(2), 0x02, 2),
      ReadValue(Watts(3), 0x03, 2),
      ReadValue(Hertz, 0x40, 2),
      ReadEnergy(CurDayEnergy(0), CurDay, 0), ReadEnergy(CurDayEnergy(1), CurDay, 1),
      ReadEnergy(CurDayEnergy(2), CurDay, 2),
      ReadEnergy(PrevDayEnergy(0), PrevDay, 0), ReadEnergy(PrevDayEnergy(1), PrevDay, 1),
      ReadEnergy(PrevDayEnergy(2), PrevDay, 2) ]
  }

  /** `make(i)` for `i` from `from` to `to`, in order. */
  function Made(make: nat -> Req, from: nat, to: nat): seq<Req> {
    if from <= to then seq(to + 1 - from, k requires 0 <= k => make(from + k)) else []
  }

  /** The request makers of the `setupMercury` loops, by phase or tariff `i`. */
  function VoltsReq(i: nat): Req { ReadValue(Volts(i), ((0x10 + i) % 256) as byte, 2) }
  function AmpsReq(i: nat): Req { ReadValue(Amps(i), ((0x20 + i) % 256) as byte, 3) }
  function WattsReq(i: nat): Req { ReadValue(Watts(i), (i % 256) as byte, 2) }
  function TodayReq(i: nat): Req { ReadEnergy(CurDayEnergy(i), CurDay, (i % 256) as byte) }
  function YesterdayReq(i: nat): Req { ReadEnergy(PrevDayEnergy(i), PrevDay, (i % 256) as byte) }

  /** The loops of `setupMercury` append exactly `Meters()`. */
  lemma MetersMade()
    ensures Made(VoltsReq, 1, 3) + Made(AmpsReq, 1, 3) + Made(WattsReq, 0, 3) + [ReadValue(Hertz, 0x40, 2)]
            + Made(TodayReq, 0, TARIFFS) + Made(YesterdayReq, 0, TARIFFS) == Meters()
  {
    var m := Meters();
    var v, a, w := Made(VoltsReq, 1, 3), Made(AmpsReq, 1, 3), Made(WattsReq, 0, 3);
    var c, p := Made(TodayReq, 0, TARIFFS), Made(YesterdayReq, 0, TARIFFS);
    assert v == [VoltsReq(1), VoltsReq(2), VoltsReq(3)];
    assert a == [AmpsReq(1), AmpsReq(2), AmpsReq(3)];
    assert w == [WattsReq(0), WattsReq(1), WattsReq(2), WattsReq(3)];
    assert c == [TodayReq(0), TodayReq(1), TodayReq(2)];
    assert p == [YesterdayReq(0), YesterdayReq(1), YesterdayReq(2)];
  }

  /** The requests a value or energy request list invalidates. */
  function Targets(rs: seq<Req>): set<Quantity> {
    set i | 0 <= i < |rs| && (rs[i].ReadValue? || rs[i].ReadEnergy?) :: rs[i].value
  }

  /** `resetAllValues` over `rs`: `error()` on each request in list order. */
  function ResetAll(rs: seq<Req>, vals: map<Quantity, int>): map<Quantity, int> {
    if rs == [] then vals else ErrorEffect(rs[|rs| - 1], ResetAll(rs[..|rs| - 1], vals))
  }

  /** After `resetAllValues` every target of the list reads INVALID_VALUE and
      every other reading is what it was. */
  lemma {:induction false} ResetAllReading(rs: seq<Req>, vals: map<Quantity, int>, q: Quantity)
    ensures q in Targets(rs) ==> Reading(ResetAll(rs, vals), q) == INVALID_VALUE
    ensures q !in Targets(rs) ==> Reading(ResetAll(rs, vals), q) == Reading(vals, q)
  {
    if rs != [] {
      var init, last := rs[..|rs| - 1], rs[|rs| - 1];
      ResetAllReading(init, vals, q);
      if (last.ReadValue? || last.ReadEnergy?) && last.value == q {
        assert q in Targets(rs) by { assert rs[|rs| - 1].value == q; }
      } else {
        assert q in Targets(rs) <==> q in Targets(init) by {
          if q in Targets(rs) {
            var i :| 0 <= i < |rs| && (rs[i].ReadValue? || rs[i].ReadEnergy?) && rs[i].value == q;
            assert i < |rs| - 1 && init[i] == rs[i];
          }
          if q in Targets(init) {
            var i :| 0 <= i < |init| && (init[i].ReadValue? || init[i].ReadEnergy?) && init[i].value == q;
            assert rs[i] == init[i];
          }
        }
      }
    }
  }

  /** How many of the waiting bytes phase `state` of `Req::check` takes:
      phase 0 drains them all, phase 2 what the answer still lacks after `n0`. */
  function Taken(r: Req, state: int, n0: int, avail: seq<byte>): (k: int)
    ensures 0 <= k <= |avail|
    ensures state == 2 && n0 < ResSize(r) ==> n0 + k <= ResSize(r)
  {
    if state == 0 then |avail|
    else if state == 2 && n0 < ResSize(r) then Min(ResSize(r) - n0, |avail|)
    else 0
  }

  /** What one call of `Req::check` returns, and the readings and meter time
      it leaves. */
  datatype Checked = Checked(next: int, values: map<Quantity, int>, time: MercuryTime)

  /** `Req::check(state)` of request `r`, from buffer `b0` holding `n0`
      received bytes, readings `vals` and meter time `t`: phase 0 moves to
      phase 1, phase 1 waits for the delay, phase 2 waits for the answer
      until the timer runs out, then checks and parses it. */
  function CheckStep(crc: CrcFn, rescale: Rescale, r: Req, state: int, elapsed: bool, b0: seq<byte>, n0: int,
                     avail: seq<byte>, vals: map<Quantity, int>, t: MercuryTime): Checked
    requires |b0| == BUF_SIZE && 0 <= n0 <= BUF_SIZE
  {
    if state == 0 then Checked(1, vals, t)
    else if state == 1 then Checked(if elapsed then 2 else 1, vals, t)
    else
      var taken := Taken(r, 2, n0, avail);
      if n0 + taken < ResSize(r) then
        if elapsed then Checked(S_ERROR, ErrorEffect(r, vals), t) else Checked(2, vals, t)
      else
        var f := Stored(b0, n0, avail, taken)[..ResSize(r)];
        if CrcOk(crc, f) && Accepts(r, f) then Checked(S_SUCCESS, ParsedValues(r, f, vals, rescale), ParsedTime(r, f, t))
        else Checked(S_ERROR, ErrorEffect(r, vals), t)
  }

  /** A request writes at most its own target: every other reading is
      left as it was, whatever the phase and the answer. */
  lemma CheckWritesOwnTarget(crc: CrcFn, rescale: Rescale, r: Req, state: int, elapsed: bool, b0: seq<byte>,
                             n0: int, avail: seq<byte>, vals: map<Quantity, int>, t: MercuryTime, q: Quantity)
    requires |b0| == BUF_SIZE && 0 <= n0 <= BUF_SIZE
    requires !(r.ReadValue? || r.ReadEnergy?) || q != r.value
    ensures Reading(CheckStep(crc, rescale, r, state, elapsed, b0, n0, avail, vals, t).values, q) == Reading(vals, q)
  {
  }

  /** The channel opener writes no reading. When it ends in S_ERROR (its
      answer did not come in time, failed its check bytes or was refused),
      `checkMercury` runs `resetAllValues` over the list `rs` behind it, after
      which every target of `rs` reads INVALID_VALUE and nothing else changed.
      An opener still short of its 4 answer bytes when the timer runs out
      always ends so. */
  lemma OpenerFailure(crc: CrcFn, rescale: Rescale, rs: seq<Req>, state: int, elapsed: bool, b0: seq<byte>,
                      n0: int, avail: seq<byte>, vals: map<Quantity, int>, t: MercuryTime, q: Quantity)
    requires |b0| == BUF_SIZE && 0 <= n0 <= BUF_SIZE
    ensures var st := CheckStep(crc, rescale, OpenChannel, state, elapsed, b0, n0, avail, vals, t);
            && st.values == vals && st.time == t
            && (state == 2 && elapsed && n0 + |avail| < ResSize(OpenChannel) ==> st.next == S_ERROR)
            && (st.next == S_ERROR && q in Targets(rs) ==> Reading(ResetAll(rs, st.values), q) == INVALID_VALUE)
            && (st.next == S_ERROR && q !in Targets(rs) ==> Reading(ResetAll(rs, st.values), q) == Reading(vals, q))
  {
    var st := CheckStep(crc, rescale, OpenChannel, state, elapsed, b0, n0, avail, vals, t);
    ResetAllReading(rs, st.values, q);
  }

  /** The request list after `reinitLoop` set the summary type of the
      energy requests at the positions `at` to `t`. */
  function Retyped(rs: seq<Req>, at: seq<int>, t: EnergyType): seq<Req> {
    seq(|rs|, j requires 0 <= j < |rs| => if j in at && rs[j].ReadEnergy? then rs[j].(etype := t) else rs[j])
  }

  /** A restart depends only on the display type selected last: retyping
      twice is retyping once to the second type. */
  lemma RetypedTwice(rs: seq<Req>, at: seq<int>, t1: EnergyType, t2: EnergyType)
    ensures Retyped(Retyped(rs, at, t1), at, t2) == Retyped(rs, at, t2)
  {
    var r1 := Retyped(rs, at, t1);
    assert forall j :: 0 <= j < |rs| ==> r1[j].ReadEnergy? == rs[j].ReadEnergy?;
  }

  /** Retyping changes no request's target, so the readings a cycle
      refreshes, and `resetAllValues` invalidates, stay the same. */
  lemma RetypedTargets(rs: seq<Req>, at: seq<int>, t: EnergyType)
    ensures Targets(Retyped(rs, at, t)) == Targets(rs)
  {
    var r := Retyped(rs, at, t);
    forall q | q in Targets(r) ensures q in Targets(rs) {
      var i :| 0 <= i < |r| && (r[i].ReadValue? || r[i].ReadEnergy?) && r[i].value == q;
      assert rs[i].value == q;
    }
    forall q | q in Targets(rs) ensures q in Targets(r) {
      var i :| 0 <= i < |rs| && (rs[i].ReadValue? || rs[i].ReadEnergy?) && rs[i].value == q;
      assert r[i].value == q;
    }
  }

  /** On the wire a retyped display request differs only in the summary
      selector, byte 2 of its frame; every other request is untouched. */
  lemma RetypedFrames(rs: seq<Req>, at: seq<int>, t: EnergyType, m: int, j: int)
    requires 0 <= j < |rs|
    ensures var r := Retyped(rs, at, t);
            && ReqSize(r[j]) == ReqSize(rs[j]) && ResSize(r[j]) == ResSize(rs[j])
            && (j in at && rs[j].ReadEnergy? ==> Frame(r[j], m) == Frame(rs[j], m)[2 := Selector(t, m)])
            && (j !in at || !rs[j].ReadEnergy? ==> r[j] == rs[j])
  {
  }

  /** The bytes `b` after `taken` bytes of `avail` were stored from position `n`. */
  function Stored(b: seq<byte>, n: int, avail: seq<byte>, taken: int): seq<byte>
    requires 0 <= n && 0 <= taken <= |avail| && n + taken <= |b|
  {
    b[..n] + avail[..taken] + b[n + taken..]
  }

  /** Storing the next waiting byte extends what `Stored` describes by one. */
  lemma StoredStep(b: seq<byte>, n: int, avail: seq<byte>, taken: int)
    requires 0 <= n && 0 <= taken < |avail| && n + taken < |b|
    ensures Stored(b, n, avail, taken)[n + taken := avail[taken]] == Stored(b, n, avail, taken + 1)
  {
    assert avail[..taken + 1] == avail[..taken] + [avail[taken]];
  }

  class Poller {
    const buf: array<byte>
    const crc: CrcFn
    const rescale: Rescale

    var nRead: int
    /** The period the timer was last reset to. */
    var period: int
    /** The linked request list, head first; `curReq` is the position of `cur_req`. */
    var reqs: seq<Req>
    /** Positions of `displayEnergyReq[0..TARIFFS]` in `reqs`. */
    var displayAt: seq<int>
    var curReq: int
    var curState: int
    var okValues: int
    var validValues: int
    var expectedValues: int
    var displayEnergyType: EnergyType
    var lastDisplayEnergyType: EnergyType
    var refreshDisplayEnergy: bool
    var values: map<Quantity, int>
    var time: MercuryTime

    /** The display requests are energy requests behind the channel opener. */
    ghost predicate DisplayOk()
      reads this`reqs, this`displayAt
    {
      && |displayAt| == TARIFFS + 1
      && forall i :: 0 <= i < |displayAt| ==> 0 < displayAt[i] < |reqs| && reqs[displayAt[i]].ReadEnergy?
    }

    ghost predicate Valid()
      reads this`nRead, this`reqs, this`displayAt, this`curReq, this`curState, this`okValues,
            this`expectedValues, this`validValues, buf
    {
      && buf.Length == BUF_SIZE && 0 <= nRead <= BUF_SIZE
      && |reqs| >= 1 && reqs[0] == OpenChannel && DisplayOk()
      && 0 <= curReq < |reqs| && 0 <= curState <= 2
      && 0 <= okValues <= curReq
      && expectedValues == |reqs| && 0 <= validValues <= expectedValues
    }

    /** The globals' initial values: the list holds only the channel opener. */
    constructor (crc: CrcFn, rescale: Rescale, display: EnergyType)
      ensures fresh(buf) && buf.Length == BUF_SIZE && nRead == 0
      ensures reqs == [OpenChannel] && expectedValues == 1 && displayAt == []
      ensures validValues == 0 && curReq == 0 && curState == 0 && okValues == 0 && values == map[]
      ensures displayEnergyType == display && lastDisplayEnergyType == Total && !refreshDisplayEnergy
      ensures this.crc == crc && this.rescale == rescale
    {
      this.buf := new byte[BUF_SIZE];
      this.crc := crc;
      this.rescale := rescale;
      nRead, period, curReq, curState, okValues, validValues := 0, 0, 0, 0, 0, 0;
      expectedValues := 1;
      reqs := [OpenChannel];
      displayAt := [];
      displayEnergyType, lastDisplayEnergyType := display, Total;
      refreshDisplayEnergy := false;
      values := map[];
      time := MercuryTime(0, 0, 0, 0, 0, 0);
    }

    /** `setupMercury` without the hardware set-up: the time request, the
        three display energy requests, then the rest, and a fresh cycle. */
    method SetupMercury()
      requires buf.Length == BUF_SIZE && 0 <= nRead <= BUF_SIZE
      requires reqs == [OpenChannel] && expectedValues == 1 && displayAt == [] && validValues == 0
      modifies this`reqs, this`expectedValues, this`displayAt, this`curReq, this`curState, this`okValues
      ensures Valid() && |reqs| == 22 && displayAt == [2, 3, 4]
      ensures reqs == [OpenChannel, ReadTime] + DisplayReqs(displayEnergyType) + Meters()
      ensures curReq == 0 && curState == 0 && okValues == 0
    {
      Add(ReadTime);
      // display energy does first after time
      AddDisplay();
      assert displayAt == [2, 3, 4];
      AddMeters();
      ghost var built := reqs;
      assert built == [OpenChannel, ReadTime] + DisplayReqs(Total) + Meters();
      ReinitLoop();
      ghost var want := [OpenChannel, ReadTime] + DisplayReqs(displayEnergyType) + Meters();
      assert |reqs| == |want|;
      forall j | 0 <= j < |want| ensures reqs[j] == want[j] {
        if j < 5 {
          assert j in displayAt <==> 2 <= j;
        } else {
          assert j !in displayAt;
          assert want[j] == Meters()[j - 5] == built[j];
        }
      }
    }

    /** The display energy requests of `setupMercury`, remembered in
        `displayEnergyReq`. */
    method AddDisplay()
      modifies this`reqs, this`expectedValues, this`displayAt
      ensures reqs == old(reqs) + DisplayReqs(Total)
      ensures displayAt == old(displayAt) + [|old(reqs)|, |old(reqs)| + 1, |old(reqs)| + 2]
      ensures expectedValues == old(expectedValues) + 3
    {
      for i := 0 to TARIFFS + 1
        invariant |reqs| == |old(reqs)| + i && reqs[..|old(reqs)|] == old(reqs)
        invariant forall k :: 0 <= k < i ==> reqs[|old(reqs)| + k] == ReadEnergy(DisplayEnergy(k), Total, k as byte)
        invariant displayAt == old(displayAt) + seq(i, k => |old(reqs)| + k)
        invariant expectedValues == old(expectedValues) + i
      {
        displayAt := displayAt + [|reqs|];
        Add(ReadEnergy(DisplayEnergy(i), Total, i as byte));
        assert reqs[..|old(reqs)|] == old(reqs) by {
          assert reqs[..|old(reqs)|] == (reqs[..|reqs| - 1])[..|old(reqs)|];
        }
      }
    }

    /** The remaining requests of `setupMercury`: voltage, current and power
        per phase, frequency, and today's and yesterday's energy per tariff. */
    method AddMeters()
      modifies this`reqs, this`expectedValues
      ensures reqs == old(reqs) + Meters() && expectedValues == old(expectedValues) + 17
    {
      AddEach(VoltsReq, 1, 3);
      AddEach(AmpsReq, 1, 3);
      AddEach(WattsReq, 0, 3);
      Add(ReadValue(Hertz, 0x40, 2));
      AddEach(TodayReq, 0, TARIFFS);
      AddEach(YesterdayReq, 0, TARIFFS);
      MetersMade();
    }

    /** `for (i = from; i <= to; i++) add(make(i));` */
    method AddEach(make: nat -> Req, from: nat, to: nat)
      modifies this`reqs, this`expectedValues
      ensures reqs == old(reqs) + Made(make, from, to)
      ensures expectedValues == old(expectedValues) + |reqs| - |old(reqs)|
    {
      var i := from;
      while i <= to
        invariant from <= i && (from <= to ==> i <= to + 1) && (from > to ==> i == from)
        invariant |reqs| == |old(reqs)| + i - from && reqs[..|old(reqs)|] == old(reqs)
        invariant forall k :: |old(reqs)| <= k < |reqs| ==> reqs[k] == make(from + k - |old(reqs)|)
        invariant expectedValues == old(expectedValues) + i - from
      {
        Add(make(i));
        i := i + 1;
      }
      assert reqs == reqs[..|old(reqs)|] + reqs[|old(reqs)|..];
    }

    /** `add`: append a request to the list and count it. */
    method Add(r: Req)
      modifies this`reqs, this`expectedValues
      ensures reqs == old(reqs) + [r] && expectedValues == old(expectedValues) + 1
    {
      reqs := reqs + [r];
      expectedValues := expectedValues + 1;
    }

    /** `reinitLoop`: restart at the channel opener and retype the display
        requests to the selected energy type. */
    method ReinitLoop()
      requires buf.Length == BUF_SIZE && 0 <= nRead <= BUF_SIZE && |reqs| >= 1 && reqs[0] == OpenChannel
      requires DisplayOk() && expectedValues == |reqs| && 0 <= validValues <= expectedValues
      modifies this`reqs, this`curReq, this`curState, this`okValues
      ensures Valid()
      ensures curReq == 0 && curState == 0 && okValues == 0
      ensures reqs == Retyped(old(reqs), displayAt, displayEnergyType)
    {
      ghost var rs := reqs;
      for i := 0 to TARIFFS + 1
        invariant |reqs| == |rs| && reqs[0] == OpenChannel && DisplayOk()
        invariant forall j :: 0 <= j < |rs| ==>
                    reqs[j] == if j in displayAt[..i] && rs[j].ReadEnergy? then rs[j].(etype := displayEnergyType) else rs[j]
      {
        var p := displayAt[i];
        reqs := reqs[p := reqs[p].(etype := displayEnergyType)];
        forall j | 0 <= j < |rs|
          ensures reqs[j] == if j in displayAt[..i + 1] && rs[j].ReadEnergy? then rs[j].(etype := displayEnergyType) else rs[j]
        {
          assert j in displayAt[..i + 1] <==> j in displayAt[..i] || j == p by {
            assert displayAt[..i + 1] == displayAt[..i] + [p];
          }
        }
      }
      assert displayAt[..TARIFFS + 1] == displayAt;
      curReq := 0;
      curState := 0;
      okValues := 0;
    }

    /** `resetAllValues`: `error()` on every request after the channel opener. */
    method ResetAllValues()
      requires |reqs| >= 1
      modifies this`values
      ensures values == ResetAll(reqs[1..], old(values))
    {
      var k := 1;
      while k < |reqs|
        invariant 1 <= k <= |reqs| && values == ResetAll(reqs[1..k], old(values))
      {
        assert reqs[1..k + 1][..k - 1] == reqs[1..k];
        values := ErrorEffect(reqs[k], values);
        k := k + 1;
      }
      assert reqs[1..k] == reqs[1..];
    }

    /** `error()` of request `r`. */
    method Error(r: Req)
      modifies this`values
      ensures values == ErrorEffect(r, old(values))
    {
      if r.ReadValue? || r.ReadEnergy? {
        values := values[r.value := INVALID_VALUE];
      }
    }

    /** Phase 0 of `Req::check`: build the request in `buf` and its check bytes. */
    method Prepare(r: Req)
      requires buf.Length == BUF_SIZE
      modifies buf, this`period
      ensures buf[..ReqSize(r)] == Frame(r, time.month) + [crc(Frame(r, time.month)).first, crc(Frame(r, time.month)).second]
      ensures buf[ReqSize(r)..] == old(buf[ReqSize(r)..])
      ensures period == RS485_DELAY
    {
      var f := Frame(r, time.month);
      FrameSize(r, time.month);
      WriteFrame(f);
      ComputeCrc(|f|);
      assert buf[..|f|] == f;
      period := RS485_DELAY;
    }

    /** `request()`: the frame's bytes stored one by one at the front of `buf`. */
    method WriteFrame(f: seq<byte>)
      requires |f| <= buf.Length
      modifies buf
      ensures buf[..|f|] == f && buf[|f|..] == old(buf[|f|..])
    {
      for i := 0 to |f|
        invariant buf[..i] == f[..i] && buf[i..] == old(buf[i..])
      {
        buf[i] := f[i];
        assert buf[..i + 1] == f[..i + 1];
      }
    }

    /** `computeCRC(buf, n)`: the check bytes of `buf[..n]` stored after it. */
    method ComputeCrc(n: int)
      requires 0 <= n && n + 2 <= buf.Length
      modifies buf
      ensures buf[..n + 2] == old(buf[..n]) + [crc(old(buf[..n])).first, crc(old(buf[..n])).second]
      ensures buf[n + 2..] == old(buf[n + 2..])
    {
      var c := crc(buf[..n]);
      buf[n] := c.first;
      buf[n + 1] := c.second;
    }

    /** The receive loop of phase 2: store available bytes until `res` are held. */
    method Receive(res: int, avail: seq<byte>) returns (taken: int)
      requires 0 <= nRead <= buf.Length && res <= buf.Length
      modifies buf, this`nRead
      ensures taken == if old(nRead) < res then Min(res - old(nRead), |avail|) else 0
      ensures nRead == old(nRead) + taken <= buf.Length
      ensures buf[..] == Stored(old(buf[..]), old(nRead), avail, taken)
    {
      taken := 0;
      while nRead < res && taken < |avail|
        invariant 0 <= taken <= |avail| && nRead == old(nRead) + taken
        invariant old(nRead) < res ==> nRead <= res
        invariant old(nRead) >= res ==> taken == 0
        invariant nRead <= buf.Length
        invariant buf[..] == Stored(old(buf[..]), old(nRead), avail, taken)
      {
        ghost var before := buf[..];
        buf[nRead] := avail[taken];
        assert buf[..] == before[nRead := avail[taken]];
        StoredStep(old(buf[..]), old(nRead), avail, taken);
        nRead, taken := nRead + 1, taken + 1;
      }
      assert old(nRead) < res ==> taken == Min(res - old(nRead), |avail|);
    }

    /** `response()` of request `r` over `buf`. */
    method Response(r: Req) returns (ok: bool)
      requires buf.Length == BUF_SIZE
      modifies this`values, this`time
      ensures ok == Accepts(r, buf[..ResSize(r)])
      ensures values == ParsedValues(r, buf[..ResSize(r)], old(values), rescale)
      ensures time == ParsedTime(r, buf[..ResSize(r)], old(time))
    {
      ghost var f := buf[..ResSize(r)];
      match r
      case OpenChannel =>
        ok := buf[1] == 0x00;
      case ReadTime =>
        time := MercuryTime(Bcd(buf[1]), Bcd(buf[2]), Bcd(buf[3]), Bcd(buf[5]), Bcd(buf[6]), Bcd(buf[7]));
        ok := true;
      case ReadValue(q, _, prec) =>
        var v := (buf[1] as int % 64) * 0x1_0000 + buf[3] as int * 0x100 + buf[2] as int;
        values := values[q := rescale(v, prec)];
        ok := true;
      case ReadEnergy(q, _, _) =>
        var w := buf[2] as int * 0x100_0000 + buf[1] as int * 0x1_0000 + buf[4] as int * 0x100 + buf[3] as int;
        values := values[q := ToInt32(w)];
        ok := true;
    }

    /** Phase 2 of `Req::check` once `res` bytes are held: compare the check
        bytes, then parse. */
    method Conclude(r: Req) returns (next: int)
      requires buf.Length == BUF_SIZE
      modifies buf, this`values, this`time
      ensures var f := old(buf[..ResSize(r)]);
              var body := f[..|f| - 2];
              && buf[..] == old(buf[..ResSize(r) - 2]) + [crc(body).first, crc(body).second] + old(buf[ResSize(r)..])
              && next == (if CrcOk(crc, f) && Accepts(r, f) then S_SUCCESS else S_ERROR)
              && (next == S_SUCCESS ==>
                    values == ParsedValues(r, f, old(values), rescale) && time == ParsedTime(r, f, old(time)))
              && (next == S_ERROR ==> values == ErrorEffect(r, old(values)) && time == old(time))
    {
      var res := ResSize(r);
      ghost var f := buf[..res];
      var c0, c1 := buf[res - 2], buf[res - 1];
      ComputeCrc(res - 2);
      assert f[..res - 2] == old(buf[..res - 2]);
      var ok := c0 == buf[res - 2] && c1 == buf[res - 1];
      if !ok {
        Error(r);
        next := S_ERROR;
        return;
      }
      assert buf[..res] == f;
      ok := Response(r);
      if !ok {
        RejectWritesNothing(r, f, old(values), rescale, old(time));
        Error(r);
        next := S_ERROR;
      } else {
        next := S_SUCCESS;
      }
    }

    /** What phase `state` of `Req::check` for `r` does to the bus, the
        buffer, `nRead` and the timer, from buffer `b0`, `nRead` `n0`, timer
        period `p0` and meter time `t0`: phase 0 builds the frame and its
        check bytes and drains the bus, phase 1 sends the frame once the
        delay is over, phase 2 stores the answer bytes and, once the answer
        is complete, overwrites its check bytes with the computed ones. */
    ghost predicate Bus(r: Req, state: int, elapsed: bool, avail: seq<byte>, b0: seq<byte>, n0: int, p0: int,
                        t0: MercuryTime, taken: int, sent: seq<byte>)
      requires |b0| == BUF_SIZE && 0 <= n0 <= BUF_SIZE
      reads buf, this`nRead, this`period
    {
      && buf.Length == BUF_SIZE
      && taken == Taken(r, state, n0, avail)
      && (state == 0 ==>
            && sent == [] && period == RS485_DELAY && nRead == n0
            && var f := Frame(r, t0.month);
               buf[..] == f + [crc(f).first, crc(f).second] + b0[ReqSize(r)..])
      && (state == 1 ==>
            && buf[..] == b0
            && if elapsed then sent == b0[..ReqSize(r)] && nRead == 0 && period == RS485_TIMEOUT
               else sent == [] && nRead == n0 && period == p0)
      && (state == 2 ==>
            && sent == [] && period == p0 && nRead == n0 + taken
            && var g := Stored(b0, n0, avail, taken);
               var res := ResSize(r);
               buf[..] == if nRead < res then g else g[..res - 2] + [crc(g[..res - 2]).first, crc(g[..res - 2]).second] + g[res..])
    }

    /** `Req::check(state)` for the current request `r`, with `elapsed`
        whether the timer has run out and `avail` the bytes waiting on the
        bus.  Returns the next phase, how many waiting bytes were taken and
        what was written to the bus. */
    method Check(r: Req, state: int, elapsed: bool, avail: seq<byte>) returns (next: int, taken: int, sent: seq<byte>)
      requires buf.Length == BUF_SIZE && 0 <= nRead <= BUF_SIZE && 0 <= state <= 2
      modifies buf, this`nRead, this`period, this`values, this`time
      ensures 0 <= nRead <= BUF_SIZE
      ensures Bus(r, state, elapsed, avail, old(buf[..]), old(nRead), old(period), old(time), taken, sent)
      ensures var st := CheckStep(crc, rescale, r, state, elapsed, old(buf[..]), old(nRead), avail, old(values), old(time));
              next == st.next && values == st.values && time == st.time
    {
      sent := [];
      taken := 0;
      if state == 0 {
        Prepare(r);
        assert buf[..] == buf[..ReqSize(r)] + buf[ReqSize(r)..];
        taken := |avail|; // drain the read buffer
        next := 1;
      } else if state == 1 {
        if !elapsed {
          next := 1;
          return;
        }
        sent := buf[..ReqSize(r)];
        nRead := 0;
        period := RS485_TIMEOUT;
        next := 2;
      } else {
        next, taken := Answer(r, elapsed, avail);
      }
    }

    /** Phase 2 of `Req::check`: store the answer bytes, then check and
        parse a complete answer, or keep waiting until the timer runs out. */
    method Answer(r: Req, elapsed: bool, avail: seq<byte>) returns (next: int, taken: int)
      requires buf.Length == BUF_SIZE && 0 <= nRead <= BUF_SIZE
      modifies buf, this`nRead, this`values, this`time
      ensures 0 <= nRead <= BUF_SIZE
      ensures Bus(r, 2, elapsed, avail, old(buf[..]), old(nRead), period, old(time), taken, [])
      ensures var st := CheckStep(crc, rescale, r, 2, elapsed, old(buf[..]), old(nRead), avail, old(values), old(time));
              next == st.next && values == st.values && time == st.time
    {
      var res := ResSize(r);
      taken := Receive(res, avail);
      if nRead < res {
        if !elapsed {
          next := 2;
          return;
        }
        Error(r);
        next := S_ERROR;
        return;
      }
      ghost var g := buf[..];
      assert g[..res][..res - 2] == g[..res - 2];
      next := Conclude(r);
    }

    /** `checkNext`: finish the current request and pick the next one. */
    method CheckNext() returns (done: bool)
      requires buf.Length == BUF_SIZE && 0 <= nRead <= BUF_SIZE && |reqs| >= 1 && reqs[0] == OpenChannel
      requires DisplayOk() && 0 <= curReq < |reqs| && 0 <= okValues <= curReq + 1
      requires expectedValues == |reqs| && 0 <= validValues <= expectedValues
      modifies this`reqs, this`curReq, this`curState, this`okValues, this`validValues,
               this`lastDisplayEnergyType, this`refreshDisplayEnergy
      ensures Valid()
      ensures Advanced(done, old(curReq), old(okValues), old(validValues), old(lastDisplayEnergyType),
                       old(refreshDisplayEnergy), old(reqs))
    {
      if lastDisplayEnergyType != displayEnergyType {
        // abort & restart on change of displayEnergyType
        ReinitLoop();
        lastDisplayEnergyType := displayEnergyType;
        refreshDisplayEnergy := true;
        done := false;
      } else if refreshDisplayEnergy && curReq == displayAt[TARIFFS] {
        ReinitLoop();
        refreshDisplayEnergy := false;
        done := true; // done refreshing
      } else {
        done := Advance();
      }
    }

    /** The regular path of `checkNext`: go to the next request, or at the end
        of the list publish the count and restart. */
    method Advance() returns (done: bool)
      requires buf.Length == BUF_SIZE && 0 <= nRead <= BUF_SIZE && |reqs| >= 1 && reqs[0] == OpenChannel
      requires DisplayOk() && 0 <= curReq < |reqs| && 0 <= okValues <= curReq + 1
      requires expectedValues == |reqs| && 0 <= validValues <= expectedValues
      modifies this`reqs, this`curReq, this`curState, this`okValues, this`validValues
      ensures Valid()
      ensures old(curReq) + 1 < |old(reqs)| ==>
                !done && curReq == old(curReq) + 1 && curState == 0 && okValues == old(okValues)
                && reqs == old(reqs) && validValues == old(validValues)
      ensures old(curReq) + 1 >= |old(reqs)| ==> Restarted(old(reqs)) && done && validValues == old(okValues)
    {
      // regular -- work till the end
      curState := 0;
      curReq := curReq + 1;
      if curReq < |reqs| {
        return false; // not done yet
      }
      validValues := okValues;
      ReinitLoop();
      return true; // done
    }

    /** The `switch` of `checkMercury` on the phase `s` the current request
        returned. */
    method Dispatch(s: int) returns (done: bool)
      requires buf.Length == BUF_SIZE && 0 <= nRead <= BUF_SIZE && |reqs| >= 1 && reqs[0] == OpenChannel
      requires DisplayOk() && 0 <= curReq < |reqs| && 0 <= okValues <= curReq
      requires expectedValues == |reqs| && 0 <= validValues <= expectedValues
      requires s == S_ERROR || s == S_SUCCESS || 0 <= s <= 2
      modifies this`reqs, this`curReq, this`curState, this`okValues, this`validValues,
               this`lastDisplayEnergyType, this`refreshDisplayEnergy, this`values
      ensures Valid()
      ensures Outcome(s, done, old(curReq), old(okValues), old(validValues), old(lastDisplayEnergyType),
                      old(refreshDisplayEnergy), old(reqs))
      ensures s == S_ERROR && old(curReq) == 0 ==> values == ResetAll(old(reqs)[1..], old(values))
      ensures !(s == S_ERROR && old(curReq) == 0) ==> values == old(values)
    {
      if s == S_ERROR && curReq == 0 {
        done := ChannelLost();
      } else if s == S_ERROR {
        // just a value error - skip it
        done := CheckNext();
      } else if s == S_SUCCESS {
        okValues := okValues + 1;
        done := CheckNext();
      } else {
        curState := s;
        done := false;
      }
    }

    /** The open-channel error path of `checkMercury`: invalidate every
        reading, retry from scratch and report whether values were valid. */
    method ChannelLost() returns (wasOk: bool)
      requires buf.Length == BUF_SIZE && 0 <= nRead <= BUF_SIZE && |reqs| >= 1 && reqs[0] == OpenChannel
      requires DisplayOk() && expectedValues == |reqs| && 0 <= validValues <= expectedValues
      modifies this`reqs, this`curReq, this`curState, this`okValues, this`validValues, this`values
      ensures Valid() && Restarted(old(reqs)) && wasOk == (old(validValues) > 0) && validValues == 0
      ensures values == ResetAll(old(reqs)[1..], old(values))
    {
      ResetAllValues();
      ReinitLoop();
      wasOk := validValues > 0;
      validValues := 0;
    }

    /** How the scheduler moves on after a request returned phase `s`, with
        `cur0`, `ok0`, `valid0`, `last0`, `refresh0` and `reqs0` the state
        before: stay on the request, start over after a failed channel
        opening, restart for a new display energy type, end a refresh, go to
        the next request, or end the cycle and publish the count. */
    ghost predicate Outcome(s: int, done: bool, cur0: int, ok0: int, valid0: int, last0: EnergyType,
                            refresh0: bool, reqs0: seq<Req>)
      requires |displayAt| == TARIFFS + 1
      reads this`reqs, this`curReq, this`curState, this`okValues, this`validValues,
            this`lastDisplayEnergyType, this`refreshDisplayEnergy, this`displayAt, this`displayEnergyType
    {
      if s != S_ERROR && s != S_SUCCESS then
        && !done && curState == s && curReq == cur0 && okValues == ok0 && validValues == valid0
        && reqs == reqs0 && refreshDisplayEnergy == refresh0 && lastDisplayEnergyType == last0
      else if s == S_ERROR && cur0 == 0 then
        && Restarted(reqs0) && done == (valid0 > 0) && validValues == 0
        && refreshDisplayEnergy == refresh0 && lastDisplayEnergyType == last0
      else
        Advanced(done, cur0, ok0 + (if s == S_SUCCESS then 1 else 0), valid0, last0, refresh0, reqs0)
    }

    /** The list restarts at the channel opener with the display requests retyped. */
    ghost predicate Restarted(reqs0: seq<Req>)
      reads this`reqs, this`curReq, this`curState, this`okValues, this`displayAt, this`displayEnergyType
    {
      curReq == 0 && curState == 0 && okValues == 0 && reqs == Retyped(reqs0, displayAt, displayEnergyType)
    }

    /** `checkNext` from request `cur0` with `ok` values read so far. */
    ghost predicate Advanced(done: bool, cur0: int, ok: int, valid0: int, last0: EnergyType,
                             refresh0: bool, reqs0: seq<Req>)
      requires |displayAt| == TARIFFS + 1
      reads this`reqs, this`curReq, this`curState, this`okValues, this`validValues,
            this`lastDisplayEnergyType, this`refreshDisplayEnergy, this`displayAt, this`displayEnergyType
    {
      if last0 != displayEnergyType then
        && Restarted(reqs0) && !done && refreshDisplayEnergy && lastDisplayEnergyType == displayEnergyType
        && validValues == valid0
      else if refresh0 && cur0 == displayAt[TARIFFS] then
        && Restarted(reqs0) && done && !refreshDisplayEnergy && validValues == valid0 && lastDisplayEnergyType == last0
      else if cur0 + 1 < |reqs0| then
        && !done && curReq == cur0 + 1 && curState == 0 && okValues == ok && reqs == reqs0
        && validValues == valid0 && refreshDisplayEnergy == refresh0 && lastDisplayEnergyType == last0
      else
        && Restarted(reqs0) && done && validValues == ok
        && refreshDisplayEnergy == refresh0 && lastDisplayEnergyType == last0
    }

    /** `checkMercury`: one tick of the poll engine.  `done` is the function's
        result; `s` is the phase the current request returned. */
    method CheckMercury(elapsed: bool, avail: seq<byte>) returns (done: bool, s: int, taken: int, sent: seq<byte>)
      requires Valid()
      modifies this, buf
      ensures Valid()
      ensures displayAt == old(displayAt) && displayEnergyType == old(displayEnergyType)
      ensures s == S_ERROR || s == S_SUCCESS || 0 <= s <= 2
      ensures Outcome(s, done, old(curReq), old(okValues), old(validValues), old(lastDisplayEnergyType),
                      old(refreshDisplayEnergy), old(reqs))
      ensures s == S_ERROR && old(curReq) == 0 ==> values == ResetAll(old(reqs)[1..], old(values))
      ensures Bus(old(reqs[curReq]), old(curState), elapsed, avail, old(buf[..]), old(nRead), old(period), old(time),
                  taken, sent)
      ensures var st := CheckStep(crc, rescale, old(reqs[curReq]), old(curState), elapsed, old(buf[..]), old(nRead),
                                  avail, old(values), old(time));
              && s == st.next && time == st.time
              && values == if s == S_ERROR && old(curReq) == 0 then ResetAll(old(reqs)[1..], st.values) else st.values
    {
      var r := reqs[curReq];
      s, taken, sent := Check(r, curState, elapsed, avail);
      done := Dispatch(s);
    }
  }

  function Min(a: int, b: int): int {
    if a <= b then a else b
  }
}
