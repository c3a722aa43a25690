/** The read loop of midi_echo.cc. A failed read is reported, and the byte left from the
    read before it is then processed again. */
module MidiReads {
  import opened MidiEcho

  datatype Read = Got(b: byte) | Failed

  /** The byte the next iteration works on; the buffer starts out with `initial`. */
  function Buffered(input: seq<Read>, initial: byte): byte {
    if input == [] then initial
    else if input[|input| - 1].Got? then input[|input| - 1].b
    else Buffered(input[..|input| - 1], initial)
  }

  /** The bytes all iterations work on. */
  function Bytes(input: seq<Read>, initial: byte): (s: seq<byte>)
    ensures |s| == |input|
  {
    if input == [] then [] else Bytes(input[..|input| - 1], initial) + [Buffered(input, initial)]
  }

  /** The bytes that really arrived. */
  function Received(input: seq<Read>): seq<byte> {
    if input == [] then []
    else Received(input[..|input| - 1]) + if input[|input| - 1].Got? then [input[|input| - 1].b] else []
  }

  /** What MIDI 1.0 asks for at the last read: the note its byte completes, if any. */
  function Due(input: seq<Read>): seq<Note> {
    if input == [] || input[|input| - 1].Failed? || IsRealTime(input[|input| - 1].b) then []
    else Emitted(Musical(Received(input)))
  }

  // ----- one pass over a stream of bytes

  /** The status in force (or -1), the data bytes since, and the last byte. */
  datatype Track = Track(status: int, count: nat, last: int)

  function Next(t: Track, b: byte): Track {
    if IsStatus(b) then Track(b, 0, b) else Track(t.status, t.count + 1, b)
  }

  function Scan(s: seq<byte>): Track {
    if s == [] then Track(-1, 0, 0) else Next(Scan(s[..|s| - 1]), s[|s| - 1])
  }

  predicate UnderNote(t: Track) { 0x80 <= t.status < 0xa0 }

  /** A note number is pending that stays in range when transposed. */
  predicate Ready(t: Track) {
    UnderNote(t) && t.count % 2 == 1 && 0 <= t.last < 122
  }

  function Emits(t: Track, b: byte): seq<Note> {
    if !IsStatus(b) && Ready(t) then [(t.status, t.last + TRANSPOSE, b)] else []
  }

  lemma {:induction false} ScanMeans(s: seq<byte>)
    ensures var h, t := LastStatus(s, |s|), Scan(s);
      && t.status == (if h < 0 then -1 else s[h])
      && t.count == |s| - 1 - h
      && (s != [] ==> t.last == s[|s| - 1])
  {
    if s != [] {
      var n := |s| - 1;
      ScanMeans(s[..n]);
      LastStatusPrefix(s, s[..n], n);
    }
  }

  lemma EmitFromAppended(s: seq<byte>, b: byte, h: int)
    requires -1 <= h < |s|
    ensures EmitFrom(s + [b], |s|, h) ==
      if !IsStatus(b) && h >= 0 && IsNote(s[h]) && (|s| - h) % 2 == 0 && s[|s| - 1] + TRANSPOSE < 128
      then [(s[h], s[|s| - 1] + TRANSPOSE, b)] else []
  {}

  /** What byte b emits after s, in terms of the last status byte and the last byte. */
  lemma EmitsLast(s: seq<byte>, b: byte)
    ensures Emitted(s + [b]) == EmitFrom(s + [b], |s|, LastStatus(s, |s|))
  {
    LastStatusPrefix(s + [b], s, |s|);
  }

  /** One pass finds what the message-level reading emits. */
  lemma EmitsScan(s: seq<byte>, b: byte)
    ensures Emitted(s + [b]) == Emits(Scan(s), b)
  {
    ScanMeans(s);
    EmitsLast(s, b);
    var h := LastStatus(s, |s|);
    EmitFromAppended(s, b, h);
    if h >= 0 {
      ByteRanges(s[h]);
      assert (|s| - h) % 2 == 0 <==> (|s| - 1 - h) % 2 == 1;
    }
  }

  lemma ScanNext(s: seq<byte>, b: byte)
    ensures Scan(s + [b]) == Next(Scan(s), b)
  {
    assert (s + [b])[..|s|] == s;
  }

  // ----- one pass over the reads

  /** What the read buffer holds and whether a read ever filled it; the tracks of the bytes
      processed, received, and received without real-time bytes; whether the status in
      force was received, and how many stale data bytes were processed under it. */
  datatype Monitor = Monitor(
    buffer: byte, heard: bool, line: Track, plain: Track, music: Track, sent: bool, stale: nat)

  function Step(m: Monitor, x: Read): Monitor {
    match x
    case Got(b) =>
      Monitor(b, true, Next(m.line, b), Next(m.plain, b),
              if IsRealTime(b) then m.music else Next(m.music, b),
              IsStatus(b) || m.sent, if IsStatus(b) then 0 else m.stale)
    case Failed =>
      m.(line := Next(m.line, m.buffer),
         stale := if IsStatus(m.buffer) then 0 else m.stale + 1)
  }

  function After(input: seq<Read>, initial: byte): Monitor {
    if input == [] then Monitor(initial, false, Scan([]), Scan([]), Scan([]), false, 0)
    else Step(After(input[..|input| - 1], initial), input[|input| - 1])
  }

  /** The bytes and tracks belong together. */
  ghost predicate Tracked(input: seq<Read>, initial: byte) {
    var m := After(input, initial);
    && m.buffer == Buffered(input, initial)
    && m.line == Scan(Bytes(input, initial))
    && m.plain == Scan(Received(input))
    && m.music == Scan(Musical(Received(input)))
  }

  lemma ReadsNext(p: seq<Read>, x: Read, initial: byte)
    ensures var input := p + [x];
      && Bytes(input, initial) == Bytes(p, initial) + [Buffered(input, initial)]
      && Buffered(input, initial) == (if x.Got? then x.b else Buffered(p, initial))
      && Received(input) == (if x.Got? then Received(p) + [x.b] else Received(p))
      && After(input, initial) == Step(After(p, initial), x)
  {
    assert (p + [x])[..|p|] == p;
  }

  lemma MusicalNext(r: seq<byte>, b: byte)
    ensures Musical(r + [b]) == if IsRealTime(b) then Musical(r) else Musical(r) + [b]
  {
    assert (r + [b])[..|r|] == r;
  }

  lemma {:induction false} AlwaysTracked(input: seq<Read>, initial: byte)
    ensures Tracked(input, initial)
  {
    if input != [] {
      var n := |input| - 1;
      var p, x := input[..n], input[n];
      assert input == p + [x];
      AlwaysTracked(p, initial);
      ReadsNext(p, x, initial);
      ScanNext(Bytes(p, initial), Buffered(input, initial));
      if x.Got? {
        ScanNext(Received(p), x.b);
        MusicalNext(Received(p), x.b);
        ScanNext(Musical(Received(p)), x.b);
      }
    }
  }

  /** The parser is behind or ahead of the received bytes by the stale ones only, and a
      status nobody sent means that none was received. */
  predicate Paced(m: Monitor) {
    && (m.sent ==> m.heard && m.plain.status == m.line.status >= 0x80 && m.line.count == m.plain.count + m.stale)
    && (!m.sent ==> m.plain.status == m.music.status == -1)
    && (m.heard ==> m.plain.last == m.line.last == m.buffer)
    && (m.heard && IsStatus(m.buffer) ==> m.sent && m.plain == Track(m.buffer, 0, m.buffer))
    && (m.sent && m.line.count == 0 ==> IsStatus(m.buffer))
    && (m.sent && m.line.status < 0xf8 ==> m.music == m.plain)
  }

  lemma PacedNext(m: Monitor, x: Read)
    requires Paced(m)
    ensures Paced(Step(m, x))
  {}

  lemma {:induction false} AlwaysPaced(input: seq<Read>, initial: byte)
    ensures Paced(After(input, initial))
  {
    if input != [] {
      var n := |input| - 1;
      AlwaysPaced(input[..n], initial);
      PacedNext(After(input[..n], initial), input[n]);
    }
  }

  // ----- when a read goes astray

  /** The read writes a note that is not due, or does not write one that is: a stale byte,
      or a byte under a status nobody sent, completes a pending note; or a real-time byte
      has cut a pending note off; or an odd number of stale bytes has shifted the pairs. */
  predicate Astray(m: Monitor, x: Read) {
    match x
    case Failed => Ready(m.line) && !IsStatus(m.buffer)
    case Got(b) =>
      !IsStatus(b) &&
      if !m.sent then Ready(m.line)
      else if IsRealTimeStatus(m.line) then Ready(m.music)
      else UnderNote(m.line) && m.line.count > 0 && m.buffer < 122 && m.stale % 2 == 1
  }

  predicate IsRealTimeStatus(t: Track) { t.status >= 0xf8 }

  function DueAt(m: Monitor, x: Read): seq<Note> {
    if x.Failed? || IsRealTime(x.b) then [] else Emits(m.music, x.b)
  }

  /** On one step: what is written is what is due exactly when the read is not astray. */
  lemma StepTiming(m: Monitor, x: Read)
    requires Paced(m)
    ensures Emits(m.line, if x.Got? then x.b else m.buffer) == DueAt(m, x) <==> !Astray(m, x)
  {}

  lemma AtRead(p: seq<Read>, x: Read, initial: byte)
    ensures var m := After(p, initial);
      && Emitted(Bytes(p + [x], initial)) == Emits(m.line, if x.Got? then x.b else m.buffer)
      && Due(p + [x]) == DueAt(m, x)
  {
    AlwaysTracked(p, initial);
    ReadsNext(p, x, initial);
    EmitsScan(Bytes(p, initial), Buffered(p + [x], initial));
    if x.Got? && !IsRealTime(x.b) {
      MusicalNext(Received(p), x.b);
      EmitsScan(Musical(Received(p)), x.b);
    }
  }

  /** At every read of every run: what is written is what is due exactly when the read is
      not astray. */
  lemma Timing(p: seq<Read>, x: Read, initial: byte)
    ensures Emitted(Bytes(p + [x], initial)) == Due(p + [x]) <==> !Astray(After(p, initial), x)
  {
    AtRead(p, x, initial);
    AlwaysPaced(p, initial);
    StepTiming(After(p, initial), x);
  }

  // ----- whole runs

  ghost predicate NeverAstray(input: seq<Read>, initial: byte) {
    forall n | 0 <= n < |input| :: !Astray(After(input[..n], initial), input[n])
  }

  /** `writes` lists what each iteration writes. */
  ghost predicate WritesOf(input: seq<Read>, initial: byte, writes: seq<seq<Note>>) {
    |writes| == |input| && forall n | 0 <= n < |input| :: writes[n] == Emitted(Bytes(input[..n + 1], initial))
  }

  /** Each iteration writes just what is due at it. */
  ghost predicate OnTime(input: seq<Read>, writes: seq<seq<Note>>) {
    |writes| == |input| && forall n | 0 <= n < |input| :: writes[n] == Due(input[..n + 1])
  }

  lemma OnTimeIff(input: seq<Read>, initial: byte, writes: seq<seq<Note>>)
    requires WritesOf(input, initial, writes)
    ensures OnTime(input, writes) <==> NeverAstray(input, initial)
  {
    forall n | 0 <= n < |input|
      ensures writes[n] == Due(input[..n + 1]) <==> !Astray(After(input[..n], initial), input[n])
    {
      assert input[..n + 1] == input[..n] + [input[n]];
      Timing(input[..n], input[n], initial);
    }
    if OnTime(input, writes) {
      forall n | 0 <= n < |input|
        ensures !Astray(After(input[..n], initial), input[n])
      {
        assert writes[n] == Due(input[..n + 1]);
      }
    }
  }

  lemma WrittenNext(p: seq<Read>, x: Read, initial: byte)
    ensures Echoed(Bytes(p + [x], initial)) == Echoed(Bytes(p, initial)) + Emitted(Bytes(p + [x], initial))
  {
    ReadsNext(p, x, initial);
    EchoedEmitted(Bytes(p, initial), Buffered(p + [x], initial));
  }

  lemma MidiNext(r: seq<byte>, b: byte)
    ensures MidiEchoed(r + [b]) == MidiEchoed(r) + if IsRealTime(b) then [] else Emitted(Musical(r + [b]))
  {
    MusicalNext(r, b);
    if IsRealTime(b) {
      assert MidiEchoed(r) + [] == MidiEchoed(r);
    } else {
      EchoedEmitted(Musical(r), b);
    }
  }

  lemma DueNext(p: seq<Read>, x: Read)
    ensures MidiEchoed(Received(p + [x])) == MidiEchoed(Received(p)) + Due(p + [x])
  {
    ReadsNext(p, x, 0);
    if x.Got? { MidiNext(Received(p), x.b); }
  }

  lemma InAllNext(p: seq<Read>, x: Read, initial: byte)
    ensures Echoed(Bytes(p + [x], initial)) == Echoed(Bytes(p, initial)) + Emitted(Bytes(p + [x], initial))
    ensures MidiEchoed(Received(p + [x])) == MidiEchoed(Received(p)) + Due(p + [x])
  {
    WrittenNext(p, x, initial);
    DueNext(p, x);
  }

  function Joined(writes: seq<seq<Note>>): seq<Note> {
    if writes == [] then [] else Joined(writes[..|writes| - 1]) + writes[|writes| - 1]
  }

  lemma JoinedNext(writes: seq<seq<Note>>, a: seq<Note>, e: seq<Note>)
    requires writes != [] && Joined(writes[..|writes| - 1]) == a && writes[|writes| - 1] == e
    ensures Joined(writes) == a + e
  {}

  lemma WritesOfNext(p: seq<Read>, x: Read, initial: byte, writes: seq<seq<Note>>, more: seq<Note>)
    requires WritesOf(p, initial, writes) && more == Emitted(Bytes(p + [x], initial))
    ensures WritesOf(p + [x], initial, writes + [more])
  {
    var input, writes' := p + [x], writes + [more];
    forall n | 0 <= n < |input|
      ensures writes'[n] == Emitted(Bytes(input[..n + 1], initial))
    {
      if n < |p| {
        assert input[..n + 1] == p[..n + 1];
      } else {
        assert input[..n + 1] == input;
      }
    }
  }

  lemma WritesOfPrefix(input: seq<Read>, initial: byte, writes: seq<seq<Note>>)
    requires WritesOf(input, initial, writes) && input != []
    ensures var n := |input| - 1;
      WritesOf(input[..n], initial, writes[..n]) && writes[n] == Emitted(Bytes(input, initial))
  {
    var n := |input| - 1;
    var p := input[..n];
    assert input[..n + 1] == input;
    forall k | 0 <= k < n
      ensures writes[..n][k] == Emitted(Bytes(p[..k + 1], initial))
    {
      assert p[..k + 1] == input[..k + 1];
    }
  }

  lemma {:induction false} WrittenInAll(input: seq<Read>, initial: byte, writes: seq<seq<Note>>)
    requires WritesOf(input, initial, writes)
    ensures Joined(writes) == Echoed(Bytes(input, initial))
    decreases |input|
  {
    if input != [] {
      var n := |input| - 1;
      var p := input[..n];
      WritesOfPrefix(input, initial, writes);
      WrittenInAll(p, initial, writes[..n]);
      assert input == p + [input[n]];
      WrittenNext(p, input[n], initial);
      JoinedNext(writes, Echoed(Bytes(p, initial)), Emitted(Bytes(input, initial)));
    }
  }

  lemma {:induction false} DueInAll(input: seq<Read>, initial: byte)
    requires NeverAstray(input, initial)
    ensures Echoed(Bytes(input, initial)) == MidiEchoed(Received(input))
  {
    if input != [] {
      var n := |input| - 1;
      var p, x := input[..n], input[n];
      assert input == p + [x];
      forall k | 0 <= k < n
        ensures !Astray(After(p[..k], initial), p[k])
      {
        assert p[..k] == input[..k] && p[k] == input[k];
      }
      DueInAll(p, initial);
      Timing(p, x, initial);
      InAllNext(p, x, initial);
    }
  }

  /** The loop of echomidi. */
  method ReadLoop(input: seq<Read>, initial: byte) returns (writes: seq<seq<Note>>)
    ensures WritesOf(input, initial, writes)
  {
    var readbuffer := initial;
    var buffer := new byte[1024](_ => 0);
    var dataptr, argsLeft := 0, 0;
    writes := [];
    ghost var seen: seq<byte> := [];
    for n := 0 to |input|
      invariant seen == Bytes(input[..n], initial)
      invariant readbuffer == Buffered(input[..n], initial)
      invariant Tracks(seen, buffer[0], buffer[1], dataptr, argsLeft)
      invariant WritesOf(input[..n], initial, writes)
    {
      if input[n].Got? { readbuffer := input[n].b; }
      assert input[..n + 1] == input[..n] + [input[n]];
      ReadsNext(input[..n], input[n], initial);
      var more;
      dataptr, argsLeft, more := Feed(buffer, dataptr, argsLeft, readbuffer, seen);
      seen := seen + [readbuffer];
      WritesOfNext(input[..n], input[n], initial, writes, more);
      writes := writes + [more];
    }
    assert input[..|input|] == input;
  }

  /** What each iteration writes. Every note is written just when the byte that completes
      it arrives, and nothing else is, exactly when no read goes astray. */
  method EchoMidi(input: seq<Read>, initial: byte) returns (writes: seq<seq<Note>>)
    ensures WritesOf(input, initial, writes)
    ensures Joined(writes) == Echoed(Bytes(input, initial))
    ensures OnTime(input, writes) <==> NeverAstray(input, initial)
    ensures OnTime(input, writes) ==> Joined(writes) == MidiEchoed(Received(input))
  {
    writes := ReadLoop(input, initial);
    WrittenInAll(input, initial, writes);
    OnTimeIff(input, initial, writes);
    if NeverAstray(input, initial) { DueInAll(input, initial); }
  }

  // ----- failed reads that do no harm

  /** A failed read repeats a status byte, or no note status is in force; before any byte
      has arrived, what the buffer holds is not a note status. */
  predicate Harmless(m: Monitor) {
    if !m.heard then !IsNote(m.buffer) else IsStatus(m.buffer) || !UnderNote(m.line)
  }

  ghost predicate FailuresHarmless(input: seq<Read>, initial: byte) {
    forall n | 0 <= n < |input| && input[n].Failed? :: Harmless(After(input[..n], initial))
  }

  /** A note status in force was sent, and no stale byte has come since. */
  predicate Clean(m: Monitor) {
    UnderNote(m.line) ==> m.sent && m.stale == 0
  }

  lemma CleanNext(m: Monitor, x: Read)
    requires Paced(m) && Clean(m) && (x.Failed? ==> Harmless(m))
    ensures Clean(Step(m, x))
    ensures Emits(m.line, if x.Got? then x.b else m.buffer) == if x.Got? then Emits(m.plain, x.b) else []
  {}

  lemma HarmlessPrefix(p: seq<Read>, x: Read, initial: byte)
    requires FailuresHarmless(p + [x], initial)
    ensures FailuresHarmless(p, initial) && (x.Failed? ==> Harmless(After(p, initial)))
  {
    var input := p + [x];
    assert input[..|p|] == p && input[|p|] == x;
    forall n | 0 <= n < |p| && p[n].Failed?
      ensures Harmless(After(p[..n], initial))
    {
      assert input[n] == p[n] && input[..n] == p[..n];
    }
  }

  lemma {:induction false} AlwaysClean(input: seq<Read>, initial: byte)
    requires FailuresHarmless(input, initial)
    ensures Clean(After(input, initial))
    ensures Echoed(Bytes(input, initial)) == Echoed(Received(input))
  {
    if input != [] {
      var n := |input| - 1;
      var p, x := input[..n], input[n];
      var m := After(p, initial);
      assert input == p + [x];
      HarmlessPrefix(p, x, initial);
      AlwaysClean(p, initial);
      AlwaysPaced(p, initial);
      AlwaysTracked(p, initial);
      CleanNext(m, x);
      InAllNext(p, x, initial);
      AtRead(p, x, initial);
      ReadsNext(p, x, initial);
      if x.Got? {
        EchoedEmitted(Received(p), x.b);
        EmitsScan(Received(p), x.b);
      }
    }
  }

  /** Failed reads that only repeat status bytes, or come while no note status is in
      force, change nothing: the echo is that of the bytes received, and it is what MIDI
      1.0 asks for exactly when no real-time byte cuts off a note among those. */
  lemma HarmlessFailures(input: seq<Read>, initial: byte)
    requires FailuresHarmless(input, initial)
    ensures Echoed(Bytes(input, initial)) == Echoed(Received(input))
    ensures Echoed(Bytes(input, initial)) == MidiEchoed(Received(input)) <==>
      forall i: nat | i < |Received(input)| :: !CutOff(Received(input), i)
  {
    AlwaysClean(input, initial);
    EchoFollowsMidi(Received(input));
  }

  /** Without failed reads the bytes processed are the bytes received. */
  lemma {:induction false} NoFailures(input: seq<Read>, initial: byte)
    requires forall n | 0 <= n < |input| :: input[n].Got?
    ensures Bytes(input, initial) == Received(input) && FailuresHarmless(input, initial)
  {
    if input != [] { NoFailures(input[..|input| - 1], initial); }
  }

  // ----- and the first one that does

  /** A failed read, the first to find a data byte under a note status. */
  ghost predicate FirstHarm(p: seq<Read>, initial: byte) {
    var m := After(p, initial);
    FailuresHarmless(p, initial) && m.heard && !Harmless(m)
  }

  lemma HarmfulStep(m: Monitor, b: byte)
    requires Paced(m) && Clean(m) && m.heard && !Harmless(m) && !IsStatus(b)
    ensures Emits(m.line, m.buffer) ==
      if m.line.count % 2 == 1 && m.buffer < 122
      then [(m.line.status, m.buffer + TRANSPOSE, m.buffer)] else []
    ensures Astray(Step(m, Failed), Got(b)) <==> m.buffer < 122
  {}

  /** It writes the byte it repeats, as a note and once more as its velocity, exactly when
      that byte is a pending note number below 122. Nothing is due. Either way the pairs
      are shifted: the next data byte goes astray exactly when the byte is below 122. */
  lemma FirstHarmful(p: seq<Read>, initial: byte, b: byte)
    requires FirstHarm(p, initial) && !IsStatus(b)
    ensures var m := After(p, initial);
      && Emitted(Bytes(p + [Failed], initial)) ==
           (if m.line.count % 2 == 1 && m.buffer < 122
            then [(m.line.status, m.buffer + TRANSPOSE, m.buffer)] else [])
      && Due(p + [Failed]) == []
      && (Astray(After(p + [Failed], initial), Got(b)) <==> m.buffer < 122)
  {
    AlwaysClean(p, initial);
    AlwaysPaced(p, initial);
    HarmfulStep(After(p, initial), b);
    AtRead(p, Failed, initial);
    ReadsNext(p, Failed, initial);
  }

  // ----- inputs

  /** Both streams grow by what one read adds. */
  lemma Grow(p: seq<Read>, x: Read, initial: byte)
    ensures var m := After(p, initial);
      && After(p + [x], initial) == Step(m, x)
      && Echoed(Bytes(p + [x], initial)) ==
           Echoed(Bytes(p, initial)) + Emits(m.line, if x.Got? then x.b else m.buffer)
      && MidiEchoed(Received(p + [x])) == MidiEchoed(Received(p)) + DueAt(m, x)
  {
    ReadsNext(p, x, initial);
    AtRead(p, x, initial);
    InAllNext(p, x, initial);
  }

  lemma HalfNote(initial: byte) returns (p: seq<Read>)
    ensures p == [Got(0x90)] + [Got(60)]
    ensures Echoed(Bytes(p, initial)) == [] && MidiEchoed(Received(p)) == []
    ensures var m := After(p, initial);
      m.buffer == 60 && m.line == Track(0x90, 1, 60) && m.music == Track(0x90, 1, 60)
  {
    var none: seq<Read> := [];
    Grow(none, Got(0x90), initial);
    assert none + [Got(0x90)] == [Got(0x90)];
    p := [Got(0x90)] + [Got(60)];
    Grow([Got(0x90)], Got(60), initial);
  }

  lemma NoteThenFailure(initial: byte) returns (p: seq<Read>)
    ensures p == [Got(0x90), Got(60), Failed]
    ensures Echoed(Bytes(p, initial)) == [(0x90, 66, 60)] && MidiEchoed(Received(p)) == []
    ensures After(p, initial).line == Track(0x90, 2, 60) && After(p, initial).music == Track(0x90, 1, 60)
  {
    var q := HalfNote(initial);
    Grow(q, Failed, initial);
    p := q + [Failed];
  }

  /** A failed read between the two data bytes of a note: the wrong note is written. */
  lemma StaleCompletesNote(initial: byte)
    ensures var input := [Got(0x90), Got(60), Failed, Got(100)];
      && Echoed(Bytes(input, initial)) == [(0x90, 66, 60)]
      && MidiEchoed(Received(input)) == [(0x90, 66, 100)]
  {
    var p := NoteThenFailure(initial);
    Grow(p, Got(100), initial);
    assert p + [Got(100)] == [Got(0x90), Got(60), Failed, Got(100)];
  }

  /** Two wrongs can make the totals right: the same note is written too early, and not
      when it is due. */
  lemma EarlyIsNotOnTime(initial: byte)
    ensures var input := [Got(0x90), Got(60), Failed, Got(60)];
      && Echoed(Bytes(input, initial)) == MidiEchoed(Received(input)) == [(0x90, 66, 60)]
      && !NeverAstray(input, initial)
  {
    var q := HalfNote(initial);
    var p := NoteThenFailure(initial);
    var input := p + [Got(60)];
    Grow(p, Got(60), initial);
    assert input == [Got(0x90), Got(60), Failed, Got(60)];
    assert input[..2] == q && input[2] == Failed;
  }
}
