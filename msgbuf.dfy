/** The message ring of msgbuf.h / msgbuf.cpp: a 300-byte circular buffer of
    committed text entries followed by one uncommitted draft.  An entry is
    stored as its text, a NUL, the four big-endian bytes of its millisecond
    time stamp and its one-byte session index. */
module MsgRing {
  import opened Bytes

  const MSGBUF_SIZE: int := 300
  const MAX_MESSAGE_SIZE: int := 200
  const MESSAGE_TAG_SIZE: int := 5
  const MESSAGE_TIME_LEN: nat := 10
  const MESSAGE_INDEX_LEN: nat := 2
  const MAX_MESSAGE_INDEX: int := 100

  /** Committed bytes that `ensureFreeSpace` tolerates before a draft starts:
      MSGBUF_SIZE - (MAX_MESSAGE_SIZE + MESSAGE_TAG_SIZE). */
  const FREE_LIMIT: int := MSGBUF_SIZE - (MAX_MESSAGE_SIZE + MESSAGE_TAG_SIZE)

  /** The index that closes a session's outgoing backlog. */
  const LAST_SESSION_INDEX: int := MAX_MESSAGE_INDEX - 1

  /** The record tag `'1'` that starts every encoded line. */
  const LINE_TAG: byte := 49

  // ---------------------------------------------------------------- entries

  /** The four bytes of a time stamp as the ring holds them, most significant first. */
  datatype Stamp = Stamp(b0: byte, b1: byte, b2: byte, b3: byte)

  /** A committed message: its text, its stored time stamp and its session index. */
  datatype Entry = Entry(text: seq<byte>, time: Stamp, idx: byte)

  /** The bytes `saveMessage` stores for the clock value `t`: `t >> 24`,
      `t >> 16`, `t >> 8` and `t`, each truncated to a byte. */
  function StampOf(t: uint32): Stamp {
    Stamp((t / 0x100_0000 % 256) as byte, (t / 0x1_0000 % 256) as byte,
          (t / 0x100 % 256) as byte, (t % 256) as byte)
  }

  /** How `encodeMessages` reassembles a time stamp: each byte masked with
      0xff, shifted into place and or-ed together. */
  function Value(s: Stamp): (r: uint32) {
    s.b0 as int * 0x100_0000 + s.b1 as int * 0x1_0000 + s.b2 as int * 0x100 + s.b3 as int
  }

  /** The clock value stored at commit is read back unchanged by encode. */
  lemma StampRoundTrip(t: uint32)
    ensures Value(StampOf(t)) == t
  {
    var q1 := t / 256;
    var q2 := q1 / 256;
    var q3 := q2 / 256;
    assert q2 == t / 0x1_0000;
    assert q3 == t / 0x100_0000;
  }

  /** Every four stored bytes are the stamp of the value they reassemble to. */
  lemma ValueRoundTrip(s: Stamp)
    ensures StampOf(Value(s)) == s
  {
    var b0, b1, b2, b3 := s.b0 as int, s.b1 as int, s.b2 as int, s.b3 as int;
    var v := Value(s);
    DivMod(b0, b1 * 0x1_0000 + b2 * 0x100 + b3, 0x100_0000);
    DivMod(b0 * 0x100 + b1, b2 * 0x100 + b3, 0x1_0000);
    DivMod(b0, b1, 0x100);
    DivMod((b0 * 0x100 + b1) * 0x100 + b2, b3, 0x100);
    DivMod(b0 * 0x100 + b1, b2, 0x100);
    DivMod(b0 * 0x1_0000 + b1 * 0x100 + b2, b3, 0x100);
    assert v / 0x1_0000 == b0 * 0x100 + b1;
    assert v / 0x100 == (b0 * 0x100 + b1) * 0x100 + b2;
  }

  /** The bytes an entry occupies in the ring. */
  function Layout(e: Entry): (r: seq<byte>)
    ensures |r| == |e.text| + 6
  {
    e.text + [NUL, e.time.b0, e.time.b1, e.time.b2, e.time.b3, e.idx]
  }

  function Flatten(es: seq<Entry>): (r: seq<byte>)
    ensures |r| >= 6 * |es|
  {
    if es == [] then [] else Layout(es[0]) + Flatten(es[1..])
  }

  /** The session index that follows `i`: 1, 2, ..., 99, then 1 again. */
  function NextIndex(i: int): int {
    if i + 1 >= MAX_MESSAGE_INDEX then 1 else i + 1
  }

  predicate WellFormedEntry(e: Entry) {
    NUL !in e.text && |e.text| < MAX_MESSAGE_SIZE && 1 <= e.idx as int < MAX_MESSAGE_INDEX
  }

  /** Every entry is well formed and each index follows the one before. */
  ghost predicate WellFormed(es: seq<Entry>) {
    es == [] ||
    (&& WellFormedEntry(es[0])
     && (|es| > 1 ==> es[1].idx as int == NextIndex(es[0].idx as int))
     && WellFormed(es[1..]))
  }

  /** Entry `n` of a well-formed sequence is well formed and is followed by
      the next index. */
  lemma {:induction false} WellFormedAt(es: seq<Entry>, n: int)
    requires WellFormed(es) && 0 <= n < |es|
    ensures WellFormedEntry(es[n])
    ensures n + 1 < |es| ==> es[n + 1].idx as int == NextIndex(es[n].idx as int)
    decreases n
  {
    if n > 0 {
      WellFormedAt(es[1..], n - 1);
      assert es[1..][n - 1] == es[n];
    }
  }

  /** Appending a well-formed entry with the next index keeps the sequence well formed. */
  lemma {:induction false} WellFormedAppend(es: seq<Entry>, e: Entry)
    requires WellFormed(es) && WellFormedEntry(e)
    requires es != [] ==> e.idx as int == NextIndex(es[|es| - 1].idx as int)
    ensures WellFormed(es + [e])
    decreases |es|
  {
    if es == [] {
      assert [e][1..] == [];
    } else {
      assert (es + [e])[1..] == es[1..] + [e];
      if |es| > 1 {
        assert es[1..][|es[1..]| - 1] == es[|es| - 1];
      }
      WellFormedAppend(es[1..], e);
    }
  }

  lemma FlattenAt(es: seq<Entry>, n: int)
    requires 0 <= n < |es|
    ensures Flatten(es[n..]) == Layout(es[n]) + Flatten(es[n + 1..])
  {
    assert es[n..][1..] == es[n + 1..];
  }

  lemma {:induction false} FlattenAppend(es: seq<Entry>, e: Entry)
    ensures Flatten(es + [e]) == Flatten(es) + Layout(e)
  {
    if es == [] {
      assert [e][1..] == [];
    } else {
      assert (es + [e])[1..] == es[1..] + [e];
      FlattenAppend(es[1..], e);
    }
  }

  lemma AppendAssoc(a: seq<byte>, b: seq<byte>, c: seq<byte>)
    ensures a + b + c == a + (b + c)
  {
  }

  lemma FlattenEmpty(es: seq<Entry>)
    requires |Flatten(es)| == 0
    ensures es == []
  {
  }

  /** The bytes `s` start with the layout of entry `e`. */
  ghost predicate HeadIs(s: seq<byte>, e: Entry) {
    |Layout(e)| <= |s| && s[..|Layout(e)|] == Layout(e)
  }

  /** The committed bytes start with the oldest entry, and the rest of them
      are the remaining entries. */
  lemma HeadOfFlatten(es: seq<Entry>, draft: seq<byte>)
    requires es != []
    ensures HeadIs(Flatten(es) + draft, es[0])
    ensures (Flatten(es) + draft)[|Layout(es[0])|..] == Flatten(es[1..]) + draft
  {
    AppendAssoc(Layout(es[0]), Flatten(es[1..]), draft);
  }

  /** What `removeMessages` and `encodeMessages` read of a head entry: its text
      as a C string, then four stamp bytes and its index byte. */
  lemma HeadView(s: seq<byte>, e: Entry)
    requires HeadIs(s, e) && NUL !in e.text
    ensures CStr(s) == e.text && |e.text| + 6 <= |s|
    ensures s[|e.text| + 1] == e.time.b0 && s[|e.text| + 2] == e.time.b1
    ensures s[|e.text| + 3] == e.time.b2 && s[|e.text| + 4] == e.time.b3
    ensures s[|e.text| + 5] == e.idx
  {
    var n := |Layout(e)|;
    LayoutAt(e);
    assert s[..|e.text|] == e.text by {
      forall j | 0 <= j < |e.text| ensures s[..|e.text|][j] == e.text[j] {
        assert s[j] == s[..n][j] == Layout(e)[j];
      }
    }
    assert s[|e.text|] == s[..n][|e.text|];
    CStrOf(s, e.text);
    var m := |e.text|;
    assert s[m + 1] == s[..n][m + 1] && s[m + 2] == s[..n][m + 2] && s[m + 3] == s[..n][m + 3];
    assert s[m + 4] == s[..n][m + 4] && s[m + 5] == s[..n][m + 5];
  }

  /** The bytes of an entry, one at a time. */
  lemma LayoutAt(e: Entry)
    ensures forall j :: 0 <= j < |e.text| ==> Layout(e)[j] == e.text[j]
    ensures Layout(e)[|e.text|] == NUL
    ensures Layout(e)[|e.text| + 1] == e.time.b0 && Layout(e)[|e.text| + 2] == e.time.b1
    ensures Layout(e)[|e.text| + 3] == e.time.b2 && Layout(e)[|e.text| + 4] == e.time.b3
    ensures Layout(e)[|e.text| + 5] == e.idx
  {
  }

  /** The six bytes `saveMessage` appends after the draft make up its layout. */
  lemma LayoutAppend(f: seq<byte>, e: Entry)
    ensures f + e.text + [NUL] + [e.time.b0] + [e.time.b1] + [e.time.b2] + [e.time.b3] + [e.idx]
            == f + Layout(e)
  {
  }

  lemma {:induction false} WellFormedSuffix(es: seq<Entry>, n: int)
    requires WellFormed(es) && 0 <= n <= |es|
    ensures WellFormed(es[n..])
    decreases n
  {
    if n > 0 {
      WellFormedSuffix(es[1..], n - 1);
      assert es[1..][n - 1..] == es[n..];
    }
  }

  /** Positions of head entries that `ensureFreeSpace` evicts, one at a time,
      until at most FREE_LIMIT committed bytes remain. */
  function Evicted(es: seq<Entry>): (r: seq<Entry>)
    ensures |Flatten(r)| <= FREE_LIMIT
    ensures |r| <= |es| && r == es[|es| - |r|..]
    ensures |r| < |es| ==> |Flatten(es[|es| - |r| - 1..])| > FREE_LIMIT
  {
    if |Flatten(es)| <= FREE_LIMIT then es
    else
      var r := Evicted(es[1..]);
      assert es[1..][|es| - 1 - |r|..] == es[|es| - |r|..];
      if |r| < |es| - 1 then
        assert es[1..][|es| - 1 - |r| - 1..] == es[|es| - |r| - 1..];
        r
      else
        r
  }

  /** One eviction of `ensureFreeSpace` drops the oldest entry, shrinks the
      committed bytes and leaves the final outcome unchanged. */
  lemma EvictStep(es: seq<Entry>)
    requires |Flatten(es)| > FREE_LIMIT
    ensures es != [] && Removed(es, MAX_MESSAGE_INDEX) == es[1..]
    ensures |Flatten(es[1..])| < |Flatten(es)|
    ensures Evicted(es[1..]) == Evicted(es)
  {
    assert es != [];
    FlattenAt(es, 0);
    assert es[0..] == es;
  }

  /** The position of the first entry carrying index `k`, or |es| if none. */
  function FindIdx(es: seq<Entry>, k: int): (r: nat)
    ensures r <= |es|
    ensures r < |es| ==> es[r].idx as int == k
    ensures forall j :: 0 <= j < r ==> es[j].idx as int != k
  {
    if es == [] then 0
    else if es[0].idx as int == k then 0
    else 1 + FindIdx(es[1..], k)
  }

  /** What `removeMessages(k)` leaves of the committed entries. */
  function Removed(es: seq<Entry>, k: int): seq<Entry> {
    if es == [] then es
    else if k == MAX_MESSAGE_INDEX then es[1..]
    else
      var r := FindIdx(es, k);
      if r < |es| then es[r + 1..] else es
  }

  // ---------------------------------------------------------------- encoding

  /** The relative time printed for an entry: stored stamp minus now, as the
      32-bit signed difference the firmware computes. */
  function RelTime(stamp: int, now: uint32): int {
    ToInt32(stamp - now)
  }

  /** The line `"1,<text>,<relative time>,<index>\n"` of one entry. */
  function Line(e: Entry, now: uint32, fmt: Formatter): (r: seq<byte>)
    ensures |r| <= |e.text| + 17
  {
    [LINE_TAG, COMMA] + e.text + LineTail(e, now, fmt)
  }

  /** What follows the text in a line: the relative time and the index. */
  function LineTail(e: Entry, now: uint32, fmt: Formatter): (r: seq<byte>)
    ensures |r| <= 15
  {
    [COMMA] + Format(fmt, RelTime(Value(e.time), now), MESSAGE_TIME_LEN, Style(0, true))
    + [COMMA] + Format(fmt, e.idx as int, MESSAGE_INDEX_LEN, Style(0, false)) + [LF]
  }

  /** How each entry is written out: `Writer(now, fmt)` in the firmware; the
      batch functions below are stated for any writer. */
  type Render = Entry -> seq<byte>

  /** The writer `encodeMessages` uses at clock value `now`. */
  function Writer(now: uint32, fmt: Formatter): (w: Render)
    ensures forall e :: |w(e)| <= |e.text| + 17
  {
    e => Line(e, now, fmt)
  }

  /** The writer's lines of `es`, one after the other. */
  function Lines(es: seq<Entry>, w: Render): seq<byte> {
    if es == [] then [] else w(es[0]) + Lines(es[1..], w)
  }

  /** The outcome of an encode: the text, how many entries it holds and the
      index handed back to the caller. */
  datatype Batch = Batch(text: seq<byte>, count: nat, index: int)

  /** The entries `encodeMessages` emits from entry `n` on, when its output
      already holds `at` characters of a `len`-character buffer and the index
      argument holds `index0`. */
  function EncodeFrom(es: seq<Entry>, n: nat, at: int, len: int, w: Render, index0: int)
    : (b: Batch)
    requires n <= |es|
    ensures b.count <= |es| - n
    ensures b.count == 0 ==> b.text == []
    decreases |es| - n
  {
    if n == |es| || at + |es[n].text| + 17 >= len then
      Batch([], 0, index0)
    else
      var line := w(es[n]);
      if es[n].idx as int == LAST_SESSION_INDEX then
        Batch(line, 1, LAST_SESSION_INDEX)
      else
        var rest := EncodeFrom(es, n + 1, at + |line|, len, w, es[n].idx as int);
        Batch(line + rest.text, rest.count + 1, rest.index)
  }

  lemma LinesCons(es: seq<Entry>, n: int, m: int, w: Render)
    requires 0 <= n < m <= |es|
    ensures Lines(es[n..m], w) == w(es[n]) + Lines(es[n + 1..m], w)
  {
    var t := es[n..m];
    assert t[0] == es[n] && t[1..] == es[n + 1..m];
  }

  /** An encode emits the lines of the entries from `n` on, one after the other. */
  lemma {:induction false} EncodeText(es: seq<Entry>, n: nat, at: int, len: int, w: Render,
                                      index0: int)
    requires n <= |es|
    ensures var b := EncodeFrom(es, n, at, len, w, index0);
            b.text == Lines(es[n..n + b.count], w)
    decreases |es| - n
  {
    var b := EncodeFrom(es, n, at, len, w, index0);
    if n == |es| || at + |es[n].text| + 17 >= len {
      assert b.count == 0 && es[n..n] == [];
    } else {
      var line := w(es[n]);
      if es[n].idx as int == LAST_SESSION_INDEX {
        assert b == Batch(line, 1, LAST_SESSION_INDEX);
        LinesCons(es, n, n + 1, w);
        assert es[n + 1..n + 1] == [];
      } else {
        var rest := EncodeFrom(es, n + 1, at + |line|, len, w, es[n].idx as int);
        EncodeText(es, n + 1, at + |line|, len, w, es[n].idx as int);
        assert b == Batch(line + rest.text, rest.count + 1, rest.index);
        assert rest.text == Lines(es[n + 1..n + 1 + rest.count], w);
        LinesCons(es, n, n + 1 + rest.count, w);
      }
    }
  }


  /** An encode hands back the index of the last entry it emitted, or the
      index it was given when it emitted none. */
  lemma {:induction false} EncodeIndex(es: seq<Entry>, n: nat, at: int, len: int, w: Render,
                                       index0: int)
    requires n <= |es|
    ensures var b := EncodeFrom(es, n, at, len, w, index0);
            && (b.count == 0 ==> b.index == index0)
            && (b.count > 0 ==> b.index == es[n + b.count - 1].idx as int)
    decreases |es| - n
  {
    var b := EncodeFrom(es, n, at, len, w, index0);
    if n == |es| || at + |es[n].text| + 17 >= len {
      assert b.count == 0;
    } else {
      var line := w(es[n]);
      if es[n].idx as int == LAST_SESSION_INDEX {
        assert b == Batch(line, 1, LAST_SESSION_INDEX);
      } else {
        var rest := EncodeFrom(es, n + 1, at + |line|, len, w, es[n].idx as int);
        EncodeIndex(es, n + 1, at + |line|, len, w, es[n].idx as int);
        assert b == Batch(line + rest.text, rest.count + 1, rest.index);
      }
    }
  }


  /** What an encode emits fits into the buffer, leaving room for the NUL. */
  lemma {:induction false} EncodeFits(es: seq<Entry>, n: nat, at: int, len: int, w: Render,
                                      index0: int)
    requires n <= |es|
    requires forall e :: |w(e)| <= |e.text| + 17
    ensures var b := EncodeFrom(es, n, at, len, w, index0);
            b.count > 0 ==> at + |b.text| < len
    decreases |es| - n
  {
    var b := EncodeFrom(es, n, at, len, w, index0);
    if n == |es| || at + |es[n].text| + 17 >= len {
      assert b.count == 0;
    } else {
      var line := w(es[n]);
      if es[n].idx as int == LAST_SESSION_INDEX {
        assert b == Batch(line, 1, LAST_SESSION_INDEX);
      } else {
        var rest := EncodeFrom(es, n + 1, at + |line|, len, w, es[n].idx as int);
        EncodeFits(es, n + 1, at + |line|, len, w, es[n].idx as int);
        assert b == Batch(line + rest.text, rest.count + 1, rest.index);
      }
    }
  }

  /** An encode goes past no entry carrying LAST_SESSION_INDEX. */
  lemma {:induction false} EncodeSession(es: seq<Entry>, n: nat, at: int, len: int, w: Render,
                                         index0: int)
    requires n <= |es|
    ensures var b := EncodeFrom(es, n, at, len, w, index0);
            forall j :: n <= j < n + b.count - 1 ==> es[j].idx as int != LAST_SESSION_INDEX
    decreases |es| - n
  {
    var b := EncodeFrom(es, n, at, len, w, index0);
    if n == |es| || at + |es[n].text| + 17 >= len {
      assert b.count == 0;
    } else {
      var line := w(es[n]);
      if es[n].idx as int == LAST_SESSION_INDEX {
        assert b.count == 1;
      } else {
        var rest := EncodeFrom(es, n + 1, at + |line|, len, w, es[n].idx as int);
        EncodeSession(es, n + 1, at + |line|, len, w, es[n].idx as int);
        assert b.count == rest.count + 1;
      }
    }
  }

  /** An encode that stops before the end of the entries, not at a session's
      last entry, stops because the next line would not fit. */
  lemma {:induction false} EncodeMaximal(es: seq<Entry>, n: nat, at: int, len: int, w: Render,
                                         index0: int)
    requires n <= |es|
    ensures var b := EncodeFrom(es, n, at, len, w, index0);
            n + b.count < |es| && (b.count == 0 || es[n + b.count - 1].idx as int != LAST_SESSION_INDEX) ==>
              at + |b.text| + |es[n + b.count].text| + 17 >= len
    decreases |es| - n
  {
    var b := EncodeFrom(es, n, at, len, w, index0);
    if n == |es| || at + |es[n].text| + 17 >= len {
      assert b.count == 0;
    } else {
      var line := w(es[n]);
      if es[n].idx as int == LAST_SESSION_INDEX {
        assert b == Batch(line, 1, LAST_SESSION_INDEX);
      } else {
        var rest := EncodeFrom(es, n + 1, at + |line|, len, w, es[n].idx as int);
        EncodeMaximal(es, n + 1, at + |line|, len, w, es[n].idx as int);
        assert b == Batch(line + rest.text, rest.count + 1, rest.index);
        if rest.count == 0 {
          assert es[n + b.count - 1] == es[n];
        }
      }
    }
  }


  // ---------------------------------------------------------------- properties

  /** Index that `k` steps after index `i` in the 1..99 cycle. */
  lemma {:induction false} IndexAfter(es: seq<Entry>, j: int, k: int)
    requires WellFormed(es) && 0 <= j <= k < |es|
    ensures es[k].idx as int == (es[j].idx as int - 1 + (k - j)) % 99 + 1
    decreases k - j
  {
    WellFormedAt(es, j);
    if k > j {
      IndexAfter(es, j, k - 1);
      WellFormedAt(es, k - 1);
    }
  }

  /** Fewer than 99 consecutive entries never repeat an index. */
  lemma IndicesDistinct(es: seq<Entry>, j: int, k: int)
    requires WellFormed(es) && 0 <= j < k < |es| && k - j < 99
    ensures es[j].idx != es[k].idx
  {
    IndexAfter(es, j, k);
    WellFormedAt(es, j);
  }

  /** At most 50 entries fit into the ring. */
  lemma EntryBound(es: seq<Entry>)
    requires |Flatten(es)| <= MSGBUF_SIZE
    ensures |es| <= 50
  {
  }

  /** `removeMessages(0)` is a no-op: no entry ever carries index 0. */
  lemma RemoveZero(es: seq<Entry>)
    requires WellFormed(es)
    ensures Removed(es, 0) == es
  {
    if es != [] {
      var r := FindIdx(es, 0);
      if r < |es| {
        WellFormedAt(es, r);
      }
    }
  }

  /** Acknowledging the index an encode returned drops exactly the entries
      that encode emitted. */
  lemma EncodeThenRemove(es: seq<Entry>, len: int, w: Render)
    requires WellFormed(es) && |Flatten(es)| <= MSGBUF_SIZE
    ensures var b := EncodeFrom(es, 0, 0, len, w, 0);
            Removed(es, b.index) == es[b.count..]
  {
    var b := EncodeFrom(es, 0, 0, len, w, 0);
    EncodeIndex(es, 0, 0, len, w, 0);
    EntryBound(es);
    if b.count == 0 {
      RemoveZero(es);
    } else {
      var last := b.count - 1;
      WellFormedAt(es, last);
      forall j | 0 <= j < last ensures es[j].idx as int != b.index {
        IndicesDistinct(es, j, last);
      }
      assert FindIdx(es, b.index) == last;
    }
  }

  // ---------------------------------------------------------------- the ring

  /** What the ring's counters and abstract contents promise each other: the
      committed and draft sizes, the draft bound that `putChar` enforces, the
      free space `ensureFreeSpace` reserved before the draft began, and the
      index of the newest entry. */
  ghost predicate Consistent(entries: seq<Entry>, draft: seq<byte>, index: int, size: int, curSize: int) {
    && |Flatten(entries)| == size
    && |draft| == curSize
    && curSize <= MAX_MESSAGE_SIZE
    && (curSize > 0 ==> size <= FREE_LIMIT)
    && NUL !in draft
    && WellFormed(entries)
    && 0 <= index < MAX_MESSAGE_INDEX
    && (entries != [] ==> entries[|entries| - 1].idx as int == index)
  }

  /** Appending a non-NUL character to a draft below the size bound keeps
      the counters consistent. */
  lemma PutStep(es: seq<Entry>, draft: seq<byte>, index: int, size: int, curSize: int, c: byte)
    requires Consistent(es, draft, index, size, curSize)
    requires c != NUL && curSize < MAX_MESSAGE_SIZE && (curSize == 0 ==> size <= FREE_LIMIT)
    ensures Consistent(es, draft + [c], index, size, curSize + 1)
    ensures Flatten(es) + draft + [c] == Flatten(es) + (draft + [c])
  {
  }

  /** Dropping the draft keeps the counters consistent. */
  lemma UndoStep(es: seq<Entry>, draft: seq<byte>, index: int, size: int, curSize: int)
    requires Consistent(es, draft, index, size, curSize)
    ensures Consistent(es, [], index, size, 0)
    ensures (Flatten(es) + draft)[..size] == Flatten(es) + []
  {
    assert (Flatten(es) + draft)[..size] == Flatten(es);
  }

  /** Committing the draft with clock value `now`: the six bytes `saveMessage`
      writes after it are the layout of the new entry, and the counters stay
      consistent. */
  lemma SaveStep(es: seq<Entry>, draft: seq<byte>, index: int, size: int, curSize: int, st: Stamp)
    requires Consistent(es, draft, index, size, curSize)
    requires curSize < MAX_MESSAGE_SIZE && (curSize > 0 || size + 6 <= MSGBUF_SIZE)
    ensures 1 <= NextIndex(index) < MAX_MESSAGE_INDEX
    ensures var e := Entry(draft, st, NextIndex(index) as byte);
            && Consistent(es + [e], [], NextIndex(index), size + curSize + 6, 0)
            && Flatten(es) + draft + [NUL] + [st.b0] + [st.b1] + [st.b2] + [st.b3]
                 + [NextIndex(index) as byte]
               == Flatten(es + [e]) + []
            && size + curSize + 6 <= MSGBUF_SIZE
  {
    var e := Entry(draft, st, NextIndex(index) as byte);
    LayoutAppend(Flatten(es), e);
    AppendAssoc(Flatten(es), draft, [NUL]);
    FlattenAppend(es, e);
    assert WellFormedEntry(e);
    WellFormedAppend(es, e);
  }

  /** What is left after `removeMessages(k)` is a suffix of the entries, and
      the counters stay consistent. */
  lemma RemoveStep(es: seq<Entry>, draft: seq<byte>, index: int, size: int, curSize: int, k: int)
    requires Consistent(es, draft, index, size, curSize)
    ensures Consistent(Removed(es, k), draft, index, |Flatten(Removed(es, k))|, curSize)
    ensures |Flatten(Removed(es, k))| <= size
  {
    var n := |es| - |Removed(es, k)|;
    assert Removed(es, k) == es[n..];
    WellFormedSuffix(es, n);
    FlattenSuffix(es, n);
  }

  /** A suffix of the entries takes no more room than all of them. */
  lemma {:induction false} FlattenSuffix(es: seq<Entry>, n: int)
    requires 0 <= n <= |es|
    ensures |Flatten(es[n..])| <= |Flatten(es)|
    decreases n
  {
    if n > 0 {
      assert es[1..][n - 1..] == es[n..];
      FlattenSuffix(es[1..], n - 1);
    }
  }

  /** The head of what is left of the committed bytes after `n` entries is
      entry `n`, followed by the rest. */
  lemma NextEntry(es: seq<Entry>, n: int, draft: seq<byte>)
    requires WellFormed(es) && 0 <= n <= |es| && |Flatten(es[n..])| != 0
    ensures n < |es| && NUL !in es[n].text
    ensures HeadIs(Flatten(es[n..]) + draft, es[n]) && |Layout(es[n])| <= |Flatten(es[n..])|
    ensures (Flatten(es[n..]) + draft)[|Layout(es[n])|..] == Flatten(es[n + 1..]) + draft
    ensures |Flatten(es[n + 1..])| == |Flatten(es[n..])| - |Layout(es[n])|
  {
    WellFormedAt(es, n);
    assert es[n..][0] == es[n] && es[n..][1..] == es[n + 1..];
    HeadOfFlatten(es[n..], draft);
  }

  /** `removeMessages` stops after entry `n`, the first carrying index `k`
      (or the head entry when k is MAX_MESSAGE_INDEX). */
  lemma RemovedAt(es: seq<Entry>, k: int, n: int)
    requires 0 <= n < |es|
    requires es[n].idx as int == k || k == MAX_MESSAGE_INDEX
    requires forall j :: 0 <= j < n ==> es[j].idx as int != k
    requires n > 0 ==> k != MAX_MESSAGE_INDEX
    ensures Removed(es, k) == es[n + 1..]
  {
    if k != MAX_MESSAGE_INDEX {
      assert FindIdx(es, k) == n;
    }
  }

  /** `removeMessages` finds no entry to stop at. */
  lemma RemovedNone(es: seq<Entry>, k: int)
    requires forall j :: 0 <= j < |es| ==> es[j].idx as int != k
    requires es != [] ==> k != MAX_MESSAGE_INDEX
    ensures Removed(es, k) == es
  {
    if es != [] {
      assert FindIdx(es, k) == |es|;
    }
  }

  /** One step of `encodeMessages`: the line of entry `done` fits after the
      output `out` and the entry does not close the session, so the batch
      still to come starts with that line. */
  lemma EncodeAdvance(es: seq<Entry>, done: nat, out: seq<byte>, len: int, w: Render,
                      index0: int, target: Batch)
    requires done < |es| && |out| + |es[done].text| + 17 < len
    requires es[done].idx as int != LAST_SESSION_INDEX
    requires var rest := EncodeFrom(es, done, |out|, len, w, index0);
             target == Batch(out + rest.text, done + rest.count, rest.index)
    ensures var out' := out + w(es[done]);
            var rest := EncodeFrom(es, done + 1, |out'|, len, w, es[done].idx as int);
            target == Batch(out' + rest.text, done + 1 + rest.count, rest.index)
  {
    var line := w(es[done]);
    var all := EncodeFrom(es, done, |out|, len, w, index0);
    var rest := EncodeFrom(es, done + 1, |out| + |line|, len, w, es[done].idx as int);
    assert all == Batch(line + rest.text, rest.count + 1, rest.index);
    BatchPrepend(out, line, all, rest, done, target);
    assert |out + line| == |out| + |line|;
  }

  /** The last step of `encodeMessages` in a session: entry `done` fits and
      carries index LAST_SESSION_INDEX, so its line ends the batch. */
  lemma EncodeLast(es: seq<Entry>, done: nat, out: seq<byte>, len: int, w: Render,
                   index0: int, target: Batch)
    requires done < |es| && |out| + |es[done].text| + 17 < len
    requires es[done].idx as int == LAST_SESSION_INDEX
    requires var rest := EncodeFrom(es, done, |out|, len, w, index0);
             target == Batch(out + rest.text, done + rest.count, rest.index)
    ensures target == Batch(out + w(es[done]), done + 1, LAST_SESSION_INDEX)
  {
  }

  lemma BatchPrepend(out: seq<byte>, line: seq<byte>, all: Batch, rest: Batch, done: nat, target: Batch)
    requires all == Batch(line + rest.text, rest.count + 1, rest.index)
    requires target == Batch(out + all.text, done + all.count, all.index)
    ensures target == Batch(out + line + rest.text, done + 1 + rest.count, rest.index)
  {
    AppendAssoc(out, line, rest.text);
  }

  /** `encodeMessages` stops: no entry is left or the next line does not fit. */
  lemma EncodeStop(es: seq<Entry>, done: nat, out: seq<byte>, len: int, w: Render,
                   index0: int, target: Batch)
    requires done <= |es|
    requires done == |es| || |out| + |es[done].text| + 17 >= len
    requires var rest := EncodeFrom(es, done, |out|, len, w, index0);
             target == Batch(out + rest.text, done + rest.count, rest.index)
    ensures target == Batch(out, done, index0)
  {
  }

  function Wrap(p: int): int {
    if p >= MSGBUF_SIZE then p - MSGBUF_SIZE else p
  }

  /** The array slot `i` bytes past `head`. */
  function RingPos(head: int, i: int): int {
    Wrap(head + i)
  }

  class MsgBuf {
    const buf: array<byte>
    var head: int
    var tail: int
    var size: int
    var cur: int
    var curSize: int
    var index: int

    /** The committed entries, oldest first. */
    ghost var entries: seq<Entry>
    /** The uncommitted draft. */
    ghost var draft: seq<byte>

    /** The bytes from `_head` up to `_cur`: committed entries, then the draft. */
    ghost var data: seq<byte>

    /** Indices and sizes are in range and agree with each other, and the
        array holds `data` circularly from `head`. */
    ghost predicate Shape()
      reads this`head, this`tail, this`size, this`cur, this`curSize, this`data, buf
    {
      && buf.Length == MSGBUF_SIZE
      && 0 <= head < MSGBUF_SIZE && 0 <= size && 0 <= curSize && size + curSize <= MSGBUF_SIZE
      && tail == Wrap(head + size) && cur == Wrap(head + size + curSize)
      && |data| == size + curSize
      && (forall i {:trigger RingPos(head, i)} :: 0 <= i < |data| ==> buf[RingPos(head, i)] == data[i])
    }

    ghost predicate Valid()
      reads this, buf
    {
      && Shape()
      && data == Flatten(entries) + draft
      && Consistent(entries, draft, index, size, curSize)
    }

    constructor ()
      ensures Valid() && fresh(buf)
      ensures entries == [] && draft == [] && index == 0
    {
      buf := new byte[MSGBUF_SIZE];
      head, tail, size, cur, curSize, index := 0, 0, 0, 0, 0, 0;
      entries, draft, data := [], [], [];
    }

    /** `putInternal`: store one byte at `_cur` and grow the draft region. */
    method PutInternal(c: byte)
      requires Shape() && size + curSize < MSGBUF_SIZE
      modifies this, buf
      ensures Shape()
      ensures data == old(data) + [c]
      ensures curSize == old(curSize) + 1
      ensures head == old(head) && size == old(size) && tail == old(tail) && index == old(index)
      ensures entries == old(entries) && draft == old(draft)
    {
      buf[cur] := c;
      cur := cur + 1;
      if cur == MSGBUF_SIZE {
        cur := 0;
      }
      curSize := curSize + 1;
      data := data + [c];
    }

    /** `getInternal`: take one byte from `_head`. */
    method GetInternal() returns (ch: byte)
      requires Shape() && size > 0
      modifies this
      ensures Shape()
      ensures ch == old(data)[0] && data == old(data)[1..]
      ensures head == Wrap(old(head) + 1) && size == old(size) - 1
      ensures curSize == old(curSize) && tail == old(tail) && cur == old(cur) && index == old(index)
      ensures entries == old(entries) && draft == old(draft)
    {
      assert buf[RingPos(head, 0)] == data[0];
      ch := buf[head];
      ghost var h := head;
      head := head + 1;
      if head == MSGBUF_SIZE {
        head := 0;
      }
      size := size - 1;
      data := data[1..];
      forall i | 0 <= i < |data| ensures buf[RingPos(head, i)] == data[i] {
        assert data[i] == old(data)[i + 1] == buf[RingPos(h, i + 1)];
      }
    }

    /** `ensureFreeSpace`: evict head entries until FREE_LIMIT bytes or fewer are committed. */
    method EnsureFreeSpace()
      requires Valid()
      modifies this
      ensures Valid()
      ensures entries == Evicted(old(entries)) && size <= FREE_LIMIT
      ensures draft == old(draft) && index == old(index) && curSize == old(curSize)
    {
      while MSGBUF_SIZE - size < MAX_MESSAGE_SIZE + MESSAGE_TAG_SIZE
        invariant Valid()
        invariant Evicted(entries) == Evicted(old(entries))
        invariant draft == old(draft) && index == old(index) && curSize == old(curSize)
        decreases size
      {
        EvictStep(entries);
        RemoveMessages(MAX_MESSAGE_INDEX);
      }
    }

    /** `putChar`: append one character to the draft. */
    method PutChar(c: byte)
      requires Valid()
      modifies this, buf
      ensures Valid() && index == old(index)
      ensures c == NUL ==> entries == old(entries) && draft == old(draft)
      ensures c != NUL ==> entries == (if old(curSize) == 0 then Evicted(old(entries)) else old(entries))
      ensures c != NUL ==> draft == (if |old(draft)| >= MAX_MESSAGE_SIZE then old(draft) else old(draft) + [c])
    {
      if c == NUL {
        return;
      }
      if curSize == 0 {
        EnsureFreeSpace();
      }
      if curSize >= MAX_MESSAGE_SIZE {
        return;
      }
      PutStep(entries, draft, index, size, curSize, c);
      PutInternal(c);
      draft := draft + [c];
    }

    /** `undoMessage`: drop the draft. */
    method UndoMessage()
      requires Valid()
      modifies this
      ensures Valid()
      ensures entries == old(entries) && draft == [] && index == old(index)
      ensures head == old(head) && size == old(size)
    {
      UndoStep(entries, draft, index, size, curSize);
      cur := tail;
      curSize := 0;
      draft := [];
      data := data[..size];
    }

    /** `saveMessage`: commit the draft with time stamp `now` and the next index. */
    method SaveMessage(now: uint32)
      requires Valid()
      requires curSize > 0 || size + 6 <= MSGBUF_SIZE
      modifies this, buf
      ensures Valid() && draft == []
      ensures old(curSize) >= MAX_MESSAGE_SIZE ==>
                entries == old(entries) && index == old(index) && size == old(size)
      ensures old(curSize) < MAX_MESSAGE_SIZE ==>
                && index == NextIndex(old(index))
                && entries == old(entries) + [Entry(old(draft), StampOf(now), index as byte)]
                && size == old(size) + old(curSize) + 6
    {
      if curSize >= MAX_MESSAGE_SIZE {
        UndoMessage();
        return;
      }
      AppendEntry(now);
    }

    /** `saveMessage` once the draft is known to fit: write the NUL, the time
        stamp and the next index after it and commit the lot. */
    method AppendEntry(now: uint32)
      requires Valid() && curSize < MAX_MESSAGE_SIZE
      requires curSize > 0 || size + 6 <= MSGBUF_SIZE
      modifies this, buf
      ensures Valid() && draft == []
      ensures index == NextIndex(old(index))
      ensures entries == old(entries) + [Entry(old(draft), StampOf(now), index as byte)]
      ensures size == old(size) + old(curSize) + 6
    {
      var st := StampOf(now);
      SaveStep(entries, draft, index, size, curSize, st);
      ghost var es := entries + [Entry(draft, st, NextIndex(index) as byte)];
      Append5(NUL, st.b0, st.b1, st.b2, st.b3);
      index := index + 1;
      if index >= MAX_MESSAGE_INDEX {
        index := 1;
      }
      PutInternal(index as byte);
      Commit();
      entries := es;
      draft := [];
    }

    /** The end of `saveMessage`: the draft region joins the committed bytes. */
    method Commit()
      requires Shape()
      modifies this
      ensures Shape() && tail == cur && size == old(size) + old(curSize) && curSize == 0
      ensures head == old(head) && cur == old(cur) && data == old(data) && index == old(index)
      ensures entries == old(entries) && draft == old(draft)
    {
      tail := cur;
      size := size + curSize;
      curSize := 0;
    }

    /** The first five `putInternal` calls of `saveMessage`. */
    method Append5(b0: byte, b1: byte, b2: byte, b3: byte, b4: byte)
      requires Shape() && size + curSize + 6 <= MSGBUF_SIZE
      modifies this, buf
      ensures Shape()
      ensures data == old(data) + [b0] + [b1] + [b2] + [b3] + [b4]
      ensures curSize == old(curSize) + 5
      ensures head == old(head) && size == old(size) && tail == old(tail) && index == old(index)
      ensures entries == old(entries) && draft == old(draft)
    {
      PutInternal(b0);
      PutInternal(b1);
      PutInternal(b2);
      PutInternal(b3);
      PutInternal(b4);
    }

    /** `available`: whether any committed entry is waiting. */
    method Available() returns (r: bool)
      requires Valid()
      ensures r == (entries != [])
    {
      r := size != 0;
    }

    /** The loop `while (getInternal() != 0);` of `removeMessages`: consume
        the C string at the head and its NUL. */
    method SkipText()
      requires Shape() && |CStr(data)| < size
      modifies this
      ensures Shape()
      ensures data == old(data)[|CStr(old(data))| + 1..] && size == old(size) - |CStr(old(data))| - 1
      ensures curSize == old(curSize) && tail == old(tail) && cur == old(cur) && index == old(index)
      ensures entries == old(entries) && draft == old(draft)
    {
      ghost var d0, c := data, |CStr(data)|;
      assert forall i :: 0 <= i < c ==> d0[i] != NUL by {
        forall i | 0 <= i < c ensures d0[i] != NUL {
          assert d0[i] == CStr(d0)[i];
        }
      }
      var ch := GetInternal();
      ghost var j := 1;
      while ch != NUL
        invariant Shape() && curSize == old(curSize) && tail == old(tail) && cur == old(cur)
        invariant index == old(index) && entries == old(entries) && draft == old(draft)
        invariant 1 <= j <= c + 1 && ch == d0[j - 1]
        invariant data == d0[j..] && size == old(size) - j
        decreases size
      {
        ch := GetInternal();
        j := j + 1;
      }
    }

    /** Lines 111-114 of `removeMessages`: skip the text, its NUL and the four
        time bytes of the head entry, and read its index byte. */
    method SkipEntry(ghost e: Entry) returns (id: byte)
      requires Shape() && HeadIs(data, e) && NUL !in e.text && |Layout(e)| <= size
      modifies this
      ensures Shape() && id == e.idx
      ensures data == old(data)[|Layout(e)|..] && size == old(size) - |Layout(e)|
      ensures curSize == old(curSize) && tail == old(tail) && cur == old(cur) && index == old(index)
      ensures entries == old(entries) && draft == old(draft)
    {
      ghost var d0 := data;
      HeadView(data, e);
      SkipText();
      for t := 0 to 4
        invariant Shape() && curSize == old(curSize) && tail == old(tail) && cur == old(cur)
        invariant index == old(index) && entries == old(entries) && draft == old(draft)
        invariant data == d0[|e.text| + 1 + t..] && size == old(size) - |e.text| - 1 - t
      {
        var skipped := GetInternal(); // skip time
      }
      id := GetInternal();
    }

    /** `removeMessages(k)`: drop head entries through the first carrying
        index `k`; with k == MAX_MESSAGE_INDEX drop exactly the head entry. */
    method RemoveMessages(k: int)
      requires Valid()
      modifies this
      ensures Valid()
      ensures entries == Removed(old(entries), k)
      ensures draft == old(draft) && index == old(index) && curSize == old(curSize)
    {
      if size == 0 {
        FlattenEmpty(entries);
        return;
      }
      RemoveStep(entries, draft, index, size, curSize, k);
      DropThrough(entries, k);
      entries := Removed(entries, k);
    }

    /** The loop of `removeMessages` over the committed entries `es`: skip
        entries up to the first whose index is `k`, or restore `_head` and
        `_size` when there is none. */
    method DropThrough(ghost es: seq<Entry>, k: int)
      requires Shape() && WellFormed(es)
      requires data == Flatten(es) + draft && size == |Flatten(es)|
      modifies this
      ensures Shape()
      ensures data == Flatten(Removed(es, k)) + draft && size == |Flatten(Removed(es, k))|
      ensures curSize == old(curSize) && tail == old(tail) && cur == old(cur) && index == old(index)
      ensures entries == old(entries) && draft == old(draft)
    {
      var head0, size0 := head, size;
      ghost var d0 := data;
      ghost var n := 0;
      assert es[0..] == es;
      while size != 0
        invariant Shape() && curSize == old(curSize) && tail == old(tail) && cur == old(cur)
        invariant index == old(index) && entries == old(entries) && draft == old(draft)
        invariant 0 <= n <= |es| && data == Flatten(es[n..]) + draft && size == |Flatten(es[n..])|
        invariant forall j :: 0 <= j < n ==> es[j].idx as int != k
        invariant n > 0 ==> k != MAX_MESSAGE_INDEX
        decreases size
      {
        NextEntry(es, n, draft);
        var id := SkipEntry(es[n]);
        if id as int == k || k == MAX_MESSAGE_INDEX {
          RemovedAt(es, k, n);
          return; // removed, or removed anyway
        }
        n := n + 1;
      }
      // not found
      FlattenEmpty(es[n..]);
      assert n == |es|;
      RemovedNone(es, k);
      head, size, data := head0, size0, d0;
    }

    /** The loop `while (i < len && (ch = getInternal()) != 0) s[i++] = ch;` of
        `encodeMessages`, with `room` the space left (`len - i`): copy the C
        string at the head while room is left, consuming its NUL only when the
        whole text fits. */
    method ReadText(room: int) returns (t: seq<byte>)
      requires Shape() && |CStr(data)| < size
      modifies this
      ensures Shape()
      ensures |CStr(old(data))| < room ==>
                t == CStr(old(data)) && data == old(data)[|t| + 1..] && size == old(size) - |t| - 1
      ensures |CStr(old(data))| >= room ==>
                t == CStr(old(data))[..if room < 0 then 0 else room] && data == old(data)[|t|..]
                && size == old(size) - |t|
      ensures curSize == old(curSize) && tail == old(tail) && cur == old(cur) && index == old(index)
      ensures entries == old(entries) && draft == old(draft)
    {
      ghost var d0, c := data, CStr(data);
      t := [];
      while |t| < room
        invariant Shape() && curSize == old(curSize) && tail == old(tail) && cur == old(cur)
        invariant index == old(index) && entries == old(entries) && draft == old(draft)
        invariant |t| <= |c| && t == c[..|t|] && (|t| <= room || t == [])
        invariant data == d0[|t|..] && size == old(size) - |t|
        decreases room - |t|
      {
        var ch := GetInternal();
        assert ch == d0[|t|];
        if ch == NUL {
          assert d0[..|t|] == t;
          CStrOf(d0, t);
          return;
        }
        assert |t| < |c| && c[|t|] == ch;
        assert c[..|t| + 1] == t + [ch];
        t := t + [ch];
      }
    }

    /** One pass of the `encodeMessages` loop body for head entry `e`, the
        output already holding `i` of `len` characters: write the line
        `1,<text>,<time>,<index>` and consume the entry, or, when the line does
        not fit, restore `_head` and `_size` and report it. */
    method EncodeEntry(ghost e: Entry, i: int, len: int, now: uint32, fmt: Formatter)
      returns (line: seq<byte>, fits: bool, ix: byte)
      requires Shape() && HeadIs(data, e) && NUL !in e.text && |Layout(e)| <= size
      requires 0 <= i && i + 2 <= len
      modifies this
      ensures Shape()
      ensures fits == (i + |e.text| + 17 < len)
      ensures fits ==> line == Line(e, now, fmt) && ix == e.idx
      ensures fits ==> data == old(data)[|Layout(e)|..] && size == old(size) - |Layout(e)|
      ensures !fits ==> head == old(head) && size == old(size) && data == old(data)
      ensures curSize == old(curSize) && tail == old(tail) && cur == old(cur) && index == old(index)
      ensures entries == old(entries) && draft == old(draft)
    {
      var head1, size1 := head, size;
      ghost var d1 := data;
      HeadView(data, e);
      line := [LINE_TAG, COMMA];
      var t := ReadText(len - i - 2);
      line := line + t;
      if i + 2 + |t| + MESSAGE_TIME_LEN + MESSAGE_INDEX_LEN + 3 >= len {
        head, size, data := head1, size1, d1;
        return line, false, 0;
      }
      assert t == e.text && data == d1[|t| + 1..];
      assert data[0] == d1[|t| + 1] && data[1] == d1[|t| + 2] && data[2] == d1[|t| + 3];
      assert data[3] == d1[|t| + 4] && data[4] == d1[|t| + 5];
      var rest;
      rest, ix := ReadTail(e, now, fmt);
      assert data == d1[|Layout(e)|..];
      line := line + rest;
      fits := true;
    }

    /** The end of the `encodeMessages` loop body: read back the four time
        bytes and the index byte of entry `e` and format them. */
    method ReadTail(ghost e: Entry, now: uint32, fmt: Formatter) returns (rest: seq<byte>, ix: byte)
      requires Shape() && 5 <= size
      requires data[0] == e.time.b0 && data[1] == e.time.b1 && data[2] == e.time.b2
      requires data[3] == e.time.b3 && data[4] == e.idx
      modifies this
      ensures Shape() && rest == LineTail(e, now, fmt) && ix == e.idx
      ensures data == old(data)[5..] && size == old(size) - 5
      ensures curSize == old(curSize) && tail == old(tail) && cur == old(cur) && index == old(index)
      ensures entries == old(entries) && draft == old(draft)
    {
      // format time
      var b0 := GetInternal();
      var b1 := GetInternal();
      var b2 := GetInternal();
      var b3 := GetInternal();
      var time := Value(Stamp(b0, b1, b2, b3));
      rest := [COMMA] + Format(fmt, ToInt32(time - now), MESSAGE_TIME_LEN, Style(0, true));
      // format index
      ix := GetInternal();
      rest := rest + [COMMA] + Format(fmt, ix as int, MESSAGE_INDEX_LEN, Style(0, false)) + [LF];
    }

    /** `encodeMessages(s, len, index)`: serialise committed entries without
        consuming them.  Returns the written characters `s`, NUL-terminated,
        their count `n` and the new value of the index argument. */
    method EncodeMessages(len: int, now: uint32, fmt: Formatter, index0: int)
      returns (s: seq<byte>, n: int, idx: int)
      requires Valid()
      modifies this
      ensures Valid()
      ensures head == old(head) && size == old(size) && tail == old(tail) && cur == old(cur)
      ensures curSize == old(curSize) && index == old(index) && data == old(data)
      ensures entries == old(entries) && draft == old(draft)
      ensures var b := EncodeFrom(entries, 0, 0, len, Writer(now, fmt), index0);
              s == b.text + [NUL] && n == |b.text| && idx == b.index
    {
      var head0, size0 := head, size;
      ghost var d0 := data;
      var out;
      out, idx := EncodeLoop(entries, len, now, fmt, index0);
      s := out + [NUL];
      n := |out|;
      head, size, data := head0, size0, d0;
    }

    /** The body of the `encodeMessages` loop, with `target` the batch of the
        whole encode and `out` what the loop has written so far. */
    method EncodeNext(ghost es: seq<Entry>, ghost done: nat, ghost out: seq<byte>, i: int, len: int,
                      now: uint32, fmt: Formatter, idx: int, ghost target: Batch)
      returns (line: seq<byte>, fits: bool, ix: byte)
      requires Shape() && WellFormed(es) && done <= |es|
      requires data == Flatten(es[done..]) + draft && size == |Flatten(es[done..])|
      requires size != 0 && i == |out| && i + 2 <= len
      requires var rest := EncodeFrom(es, done, i, len, Writer(now, fmt), idx);
               target == Batch(out + rest.text, done + rest.count, rest.index)
      modifies this
      ensures Shape()
      ensures curSize == old(curSize) && tail == old(tail) && cur == old(cur) && index == old(index)
      ensures entries == old(entries) && draft == old(draft)
      ensures !fits ==> target == Batch(out, done, idx)
      ensures fits ==> done < |es| && ix == es[done].idx && size < old(size)
      ensures fits ==> data == Flatten(es[done + 1..]) + draft && size == |Flatten(es[done + 1..])|
      ensures fits && ix as int == LAST_SESSION_INDEX ==> target == Batch(out + line, done + 1, LAST_SESSION_INDEX)
      ensures fits && ix as int != LAST_SESSION_INDEX ==>
                var rest := EncodeFrom(es, done + 1, |out + line|, len, Writer(now, fmt), ix as int);
                target == Batch(out + line + rest.text, done + 1 + rest.count, rest.index)
    {
      NextEntry(es, done, draft);
      line, fits, ix := EncodeEntry(es[done], i, len, now, fmt);
      if !fits {
        EncodeStop(es, done, out, len, Writer(now, fmt), idx, target);
      } else if ix as int == LAST_SESSION_INDEX {
        EncodeLast(es, done, out, len, Writer(now, fmt), idx, target);
      } else {
        EncodeAdvance(es, done, out, len, Writer(now, fmt), idx, target);
      }
    }

    /** The loop of `encodeMessages` over the committed entries `es`. */
    method EncodeLoop(ghost es: seq<Entry>, len: int, now: uint32, fmt: Formatter, index0: int)
      returns (out: seq<byte>, idx: int)
      requires Shape() && WellFormed(es)
      requires data == Flatten(es) + draft && size == |Flatten(es)|
      modifies this
      ensures Shape()
      ensures var b := EncodeFrom(es, 0, 0, len, Writer(now, fmt), index0); out == b.text && idx == b.index
      ensures curSize == old(curSize) && tail == old(tail) && cur == old(cur) && index == old(index)
      ensures entries == old(entries) && draft == old(draft)
    {
      ghost var done := 0;
      var i := 0;
      out := [];
      idx := index0;
      ghost var target := EncodeFrom(es, 0, 0, len, Writer(now, fmt), index0);
      ghost var stopped := false;
      assert es[0..] == es;
      assert target == Batch(out + target.text, done + target.count, target.index);
      while size != 0 && i + 2 <= len
        invariant !stopped
        invariant Shape() && curSize == old(curSize) && tail == old(tail) && cur == old(cur)
        invariant index == old(index) && entries == old(entries) && draft == old(draft)
        invariant 0 <= done <= |es| && data == Flatten(es[done..]) + draft
        invariant size == |Flatten(es[done..])|
        invariant i == |out|
        invariant var rest := EncodeFrom(es, done, i, len, Writer(now, fmt), idx);
                  target == Batch(out + rest.text, done + rest.count, rest.index)
        decreases size
      {
        var line, fits, ix := EncodeNext(es, done, out, i, len, now, fmt, idx, target);
        if !fits {
          stopped := true;
          break;
        }
        out := out + line;
        i := i + |line|;
        idx := ix as int;
        done := done + 1;
        if idx == LAST_SESSION_INDEX {
          stopped := true;
          break; // last message in this session
        }
      }
      if !stopped {
        if size == 0 {
          FlattenEmpty(es[done..]);
        }
        EncodeStop(es, done, out, len, Writer(now, fmt), idx, target);
      }
    }
  }
}
