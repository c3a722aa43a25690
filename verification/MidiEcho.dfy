/** echomidi of midi_echo.cc: notes arriving on a MIDI byte stream are echoed six
    semitones higher. */
module MidiEcho {

  type byte = b: int | 0 <= b < 256

  type Note = (byte, byte, byte)

  const TRANSPOSE := 6

  function GetArgsExpected(command: byte): nat {
    match command / 16
    case 8 => 2
    case 9 => 2
    case 10 => 2
    case 11 => 2
    case 12 => 1
    case 13 => 1
    case 14 => 1
    case _ => 0
  }

  /** How many data bytes MIDI 1.0 has after a status byte; a system exclusive, 0xf0, has
      any number. */
  function MidiArgs(status: byte): nat {
    if 0xc0 <= status < 0xe0 || status == 0xf1 || status == 0xf3 then 1
    else if 0x80 <= status < 0xf0 || status == 0xf2 then 2
    else 0
  }

  /** The parser expects what MIDI 1.0 has except after pitch bend, where it expects one
      byte too few, and after the system messages with data. */
  lemma ArgsAgainstMidi(status: byte)
    ensures 0xe0 <= status < 0xf0 ==> GetArgsExpected(status) == 1 && MidiArgs(status) == 2
    ensures status < 0x80 || status >= 0xf0 ==> GetArgsExpected(status) == 0
    ensures GetArgsExpected(status) == MidiArgs(status) <==> !(0xe0 <= status < 0xf0 || 0xf1 <= status <= 0xf3)
  {}

  predicate IsStatus(b: byte) { b >= 0x80 }

  predicate IsNote(b: byte) { b / 16 == 9 || b / 16 == 8 }

  /** The kinds of bytes, in numbers. */
  lemma ByteRanges(b: byte)
    ensures IsStatus(b) <==> 0x80 <= b <= 0xff
    ensures IsNote(b) <==> 0x80 <= b <= 0x9f
    ensures IsRealTime(b) <==> 0xf8 <= b <= 0xff
  {}

  // ----- message-level specification

  /** Position of the last status byte among the first n bytes, or -1. */
  function LastStatus(s: seq<byte>, n: nat): (h: int)
    requires n <= |s|
    ensures -1 <= h < n
    ensures h >= 0 ==> IsStatus(s[h])
    ensures forall k | h < k < n :: !IsStatus(s[k])
  {
    if n == 0 then -1
    else if IsStatus(s[n - 1]) then n - 1
    else LastStatus(s, n - 1)
  }

  /** Under a status byte at h, data byte i completes a note message when that is note on
      or off and i is data number 2, 4, 6, ... since. The echo is six semitones up, and
      drops notes that leave the range. */
  function EmitFrom(s: seq<byte>, i: nat, h: int): seq<Note>
    requires -1 <= h < i < |s|
  {
    if !IsStatus(s[i]) && h >= 0 && IsNote(s[h]) && (i - h) % 2 == 0 && s[i - 1] + TRANSPOSE < 128
    then [(s[h], s[i - 1] + TRANSPOSE, s[i])]
    else []
  }

  /** Running status: the last status byte stays in force. */
  function EmitAt(s: seq<byte>, i: nat): seq<Note>
    requires i < |s|
  {
    EmitFrom(s, i, LastStatus(s, i))
  }

  function EchoedUpTo(s: seq<byte>, n: nat): seq<Note>
    requires n <= |s|
  {
    if n == 0 then [] else EchoedUpTo(s, n - 1) + EmitAt(s, n - 1)
  }

  function Echoed(s: seq<byte>): seq<Note> {
    EchoedUpTo(s, |s|)
  }

  // ----- the parser

  /** What argsLeft is after a status byte that has `expected` data bytes and `count` such. */
  function LeftAfter(expected: nat, count: int): int {
    if count == 0 then expected else if expected == 2 then count % 2 else expected - 1
  }

  /** What the parser's variables say about the bytes seen so far. */
  ghost predicate Tracks(seen: seq<byte>, status: byte, note: byte, dataptr: int, argsLeft: int) {
    var h := LastStatus(seen, |seen|);
    var count := |seen| - 1 - h;
    && status == (if h >= 0 then seen[h] else 0)
    && argsLeft == LeftAfter(GetArgsExpected(status), count)
    && dataptr == (if seen == [] then 0 else 1 + GetArgsExpected(status) - argsLeft)
    && (IsNote(status) && count % 2 == 1 ==> note == seen[|seen| - 1])
  }

  lemma LastStatusPrefix(s: seq<byte>, t: seq<byte>, n: nat)
    requires n <= |s| && n <= |t| && s[..n] == t[..n]
    ensures LastStatus(s, n) == LastStatus(t, n)
  {
    var h, g := LastStatus(s, n), LastStatus(t, n);
    assert forall k | 0 <= k < n :: s[k] == s[..n][k] == t[k];
  }

  lemma {:induction false} EchoedPrefix(s: seq<byte>, t: seq<byte>, n: nat)
    requires n <= |s| && n <= |t| && s[..n] == t[..n]
    ensures EchoedUpTo(s, n) == EchoedUpTo(t, n)
  {
    if n > 0 {
      assert s[..n - 1] == s[..n][..n - 1] == t[..n][..n - 1] == t[..n - 1];
      assert forall k | 0 <= k < n :: s[k] == s[..n][k] == t[k];
      EchoedPrefix(s, t, n - 1);
      LastStatusPrefix(s, t, n - 1);
    }
  }

  lemma EchoedNext(s: seq<byte>, b: byte)
    ensures Echoed(s + [b]) == Echoed(s) + EmitAt(s + [b], |s|)
    ensures LastStatus(s + [b], |s|) == LastStatus(s, |s|)
  {
    EchoedPrefix(s + [b], s, |s|);
    LastStatusPrefix(s + [b], s, |s|);
  }

  lemma TrackStatus(seen: seq<byte>, b: byte, status: byte, note: byte, note': byte, dataptr: int, argsLeft: int)
    requires Tracks(seen, status, note, dataptr, argsLeft) && IsStatus(b)
    ensures Tracks(seen + [b], b, note', 1, GetArgsExpected(b))
    ensures Emitted(seen + [b]) == []
  {
    assert LastStatus(seen + [b], |seen + [b]|) == |seen|;
  }

  /** Where the parser stands after a data byte. */
  function NextDataptr(dataptr: int, argsLeft: int): int {
    if dataptr == 0 || argsLeft <= 0 then 2 else dataptr + 1
  }

  function NextArgs(status: byte, dataptr: int, argsLeft: int): int {
    (if dataptr == 0 || argsLeft <= 0 then GetArgsExpected(status) else argsLeft) - 1
  }

  lemma TrackData(seen: seq<byte>, b: byte, status: byte, note: byte, dataptr: int, argsLeft: int, note': byte)
    requires Tracks(seen, status, note, dataptr, argsLeft) && !IsStatus(b)
    requires note' == if NextDataptr(dataptr, argsLeft) == 2 then b else note
    ensures
      var d, a := NextDataptr(dataptr, argsLeft), NextArgs(status, dataptr, argsLeft);
      && Tracks(seen + [b], status, note', d, a)
      && (a == 0 && IsNote(status) ==> d == 3)
      && Emitted(seen + [b]) ==
           if a == 0 && IsNote(status) && note' + TRANSPOSE < 128
           then [(status, note' + TRANSPOSE, b)] else []
  {
    EchoedNext(seen, b);
    assert LastStatus(seen + [b], |seen + [b]|) == LastStatus(seen, |seen|);
  }

  lemma TrackEcho(seen: seq<byte>, status: byte, note: byte, dataptr: int, note': byte)
    requires Tracks(seen, status, note, dataptr, 0) && IsNote(status)
    ensures Tracks(seen, status, note', dataptr, 0)
  {}

  /** One byte through the parser; `seen` is what came before it. */
  method Feed(buffer: array<byte>, dataptr0: int, argsLeft0: int, readbuffer: byte, ghost seen: seq<byte>)
    returns (dataptr: int, argsLeft: int, written: seq<Note>)
    requires buffer.Length == 1024 && Tracks(seen, buffer[0], buffer[1], dataptr0, argsLeft0)
    modifies buffer
    ensures Tracks(seen + [readbuffer], buffer[0], buffer[1], dataptr, argsLeft)
    ensures written == Emitted(seen + [readbuffer])
  {
    dataptr, argsLeft, written := dataptr0, argsLeft0, [];
    ghost var status, note := buffer[0], buffer[1];
    if IsStatus(readbuffer) {
      argsLeft := GetArgsExpected(readbuffer);
      dataptr := 0;
      buffer[dataptr] := readbuffer;
      dataptr := dataptr + 1;
      TrackStatus(seen, readbuffer, status, note, buffer[1], dataptr0, argsLeft0);
    } else {
      if dataptr == 0 || argsLeft <= 0 {
        argsLeft := GetArgsExpected(buffer[0]);
        dataptr := 1;
      }
      buffer[dataptr] := readbuffer;
      dataptr := dataptr + 1;
      argsLeft := argsLeft - 1;
      TrackData(seen, readbuffer, status, note, dataptr0, argsLeft0, buffer[1]);
    }
    if argsLeft == 0 && IsNote(buffer[0]) {
      var newnote := buffer[1] + TRANSPOSE;
      if 0 < newnote < 128 {
        TrackEcho(seen + [readbuffer], buffer[0], buffer[1], dataptr, newnote);
        buffer[1] := newnote;
        written := [(buffer[0], buffer[1], buffer[2])];
      }
    }
    assert dataptr <= 3;
    if dataptr > 1000 {
      dataptr := 0;
    }
  }

  // ----- against the MIDI 1.0 rules for real-time bytes

  /** System real-time messages may appear anywhere and leave running status alone. */
  predicate IsRealTime(b: byte) { b >= 0xf8 }

  function Musical(s: seq<byte>): (m: seq<byte>)
    ensures |m| <= |s|
  {
    if s == [] then []
    else
      var n := |s| - 1;
      Musical(s[..n]) + if IsRealTime(s[n]) then [] else [s[n]]
  }

  /** What MIDI 1.0 asks a note echo to write. */
  function MidiEchoed(s: seq<byte>): seq<Note> {
    Echoed(Musical(s))
  }

  /** Byte i completes a note to be echoed, but the status byte the parser goes by is
      a real-time byte that came after the note's own. */
  predicate Lost(s: seq<byte>, i: nat)
    requires i < |s|
  {
    var h := LastStatus(s, i);
    var m := Musical(s[..i + 1]);
    !IsStatus(s[i]) && h >= 0 && IsRealTime(s[h]) && Emitted(m) != []
  }

  lemma {:induction false} MusicalTail(s: seq<byte>, h: nat)
    requires h <= |s| && forall k | h <= k < |s| :: !IsRealTime(s[k])
    ensures Musical(s) == Musical(s[..h]) + s[h..]
  {
    if h < |s| {
      var n := |s| - 1;
      assert s[..n][..h] == s[..h];
      assert s[..n][h..] + [s[n]] == s[h..];
      MusicalTail(s[..n], h);
    } else {
      assert s[..h] == s;
    }
  }

  lemma LastStatusAt(s: seq<byte>, n: nat, h: nat)
    requires h < n <= |s| && IsStatus(s[h]) && forall k | h < k < n :: !IsStatus(s[k])
    ensures LastStatus(s, n) == h
  {}

  lemma {:induction false} MusicalData(s: seq<byte>)
    requires forall k | 0 <= k < |s| :: !IsStatus(s[k])
    ensures Musical(s) == s
  {
    if s != [] { MusicalData(s[..|s| - 1]); }
  }

  /** What the last byte of s emits. */
  function Emitted(s: seq<byte>): seq<Note> {
    if s == [] then [] else EmitAt(s, |s| - 1)
  }

  lemma EchoedEmitted(s: seq<byte>, b: byte)
    ensures Echoed(s + [b]) == Echoed(s) + Emitted(s + [b])
  {
    EchoedNext(s, b);
    assert |s + [b]| - 1 == |s|;
  }

  predicate OneStatus(t: seq<byte>) {
    |t| >= 2 && IsStatus(t[0]) && forall k | 0 < k < |t| :: !IsStatus(t[k])
  }

  lemma MusicalSplit(p: seq<byte>, t: seq<byte>)
    requires OneStatus(t) && !IsRealTime(t[0])
    ensures Musical(p + t) == Musical(p) + t
  {
    var s := p + t;
    assert s[..|p|] == p && s[|p|..] == t;
    MusicalTail(s, |p|);
  }

  /** What is emitted depends only on the bytes from the last status byte on. */
  lemma EmitTail(p: seq<byte>, t: seq<byte>)
    requires OneStatus(t)
    ensures Emitted(p + t) == Emitted(t)
  {
    var s := p + t;
    LastStatusAt(s, |s| - 1, |p|);
    LastStatusAt(t, |t| - 1, 0);
    assert s[|s| - 1] == t[|t| - 1] && s[|s| - 2] == t[|t| - 2] && s[|p|] == t[0];
  }

  lemma SplitAtStatus(s: seq<byte>) returns (p: seq<byte>, t: seq<byte>)
    requires s != [] && !IsStatus(s[|s| - 1]) && LastStatus(s, |s| - 1) >= 0
    ensures s == p + t && OneStatus(t) && t[0] == s[LastStatus(s, |s| - 1)]
  {
    var h := LastStatus(s, |s| - 1);
    p, t := s[..h], s[h..];
    assert OneStatus(t) by { assert forall k | 0 < k < |t| :: t[k] == s[h + k]; }
  }

  lemma EmitSame(s: seq<byte>)
    requires s != [] && !IsStatus(s[|s| - 1])
    requires var h := LastStatus(s, |s| - 1); h >= 0 ==> !IsRealTime(s[h])
    ensures Emitted(Musical(s)) == Emitted(s)
  {
    if LastStatus(s, |s| - 1) < 0 {
      MusicalData(s);
    } else {
      var p, t := SplitAtStatus(s);
      MusicalSplit(p, t);
      EmitTail(p, t);
      EmitTail(Musical(p), t);
    }
  }

  /** The last byte adds the same to both sides, or is lost and adds to one only. */
  lemma LastByte(r: seq<byte>, b: byte)
    ensures var s := r + [b];
      if Lost(s, |r|)
      then Echoed(s) == Echoed(r) && |MidiEchoed(s)| == |MidiEchoed(r)| + 1
      else exists e :: Echoed(s) == Echoed(r) + e && MidiEchoed(s) == MidiEchoed(r) + e
  {
    var s := r + [b];
    assert s[..|r|] == r && s[..|r| + 1] == s;
    EchoedNext(r, b);
    var e := EmitAt(s, |r|);
    if IsRealTime(b) {
      assert Musical(s) == Musical(r);
      assert Echoed(s) == Echoed(r) + [] && MidiEchoed(s) == MidiEchoed(r) + [];
    } else {
      var m := Musical(s);
      assert m == Musical(r) + [b];
      EchoedNext(Musical(r), b);
      var h := LastStatus(s, |r|);
      if !IsStatus(b) && (h >= 0 ==> !IsRealTime(s[h])) {
        EmitSame(s);
        assert MidiEchoed(s) == MidiEchoed(r) + e;
      } else if !Lost(s, |r|) {
        assert e == [];
        assert MidiEchoed(s) == MidiEchoed(r) + [];
      }
    }
  }

  lemma LostPrefix(r: seq<byte>, b: byte, i: nat)
    requires i < |r|
    ensures Lost(r + [b], i) <==> Lost(r, i)
  {
    var s := r + [b];
    assert s[..i + 1] == r[..i + 1];
    assert s[..i] == r[..i];
    LastStatusPrefix(s, r, i);
  }

  ghost predicate NoneLost(s: seq<byte>) {
    forall i: nat | i < |s| :: !Lost(s, i)
  }

  lemma NoneLostNext(r: seq<byte>, b: byte)
    ensures NoneLost(r + [b]) <==> NoneLost(r) && !Lost(r + [b], |r|)
  {
    forall i: nat | i < |r|
      ensures Lost(r + [b], i) <==> Lost(r, i)
    {
      LostPrefix(r, b, i);
    }
  }

  lemma {:induction false} EchoVersusMidi(s: seq<byte>)
    ensures |Echoed(s)| <= |MidiEchoed(s)|
    ensures |Echoed(s)| == |MidiEchoed(s)| <==> NoneLost(s)
    ensures |Echoed(s)| == |MidiEchoed(s)| ==> Echoed(s) == MidiEchoed(s)
  {
    if s != [] {
      var r, b := s[..|s| - 1], s[|s| - 1];
      assert s == r + [b];
      EchoVersusMidi(r);
      LastByte(r, b);
      NoneLostNext(r, b);
    }
  }

  // ----- the same condition, read off the bytes

  /** Position of the last status byte before n that is not a real-time byte, or -1. */
  function LastMusical(s: seq<byte>, n: nat): (h: int)
    requires n <= |s|
    ensures -1 <= h < n
    ensures h >= 0 ==> IsStatus(s[h]) && !IsRealTime(s[h])
    ensures forall k | h < k < n :: IsStatus(s[k]) ==> IsRealTime(s[k])
  {
    if n == 0 then -1
    else if IsStatus(s[n - 1]) && !IsRealTime(s[n - 1]) then n - 1
    else LastMusical(s, n - 1)
  }

  /** Position of the last data byte before n, or -1. */
  function LastData(s: seq<byte>, n: nat): (d: int)
    requires n <= |s|
    ensures -1 <= d < n
  {
    if n == 0 then -1 else if !IsStatus(s[n - 1]) then n - 1 else LastData(s, n - 1)
  }

  /** How many of the bytes lo .. n are data. */
  function DataBytes(s: seq<byte>, lo: nat, n: nat): nat
    requires lo <= n <= |s|
  {
    if n == lo then 0 else DataBytes(s, lo, n - 1) + if IsStatus(s[n - 1]) then 0 else 1
  }

  /** Byte i ends a note that a real-time byte has cut off from its status byte h: it is
      data number 2, 4, 6, ... since h, and the note stays in range when transposed. */
  predicate CutOff(s: seq<byte>, i: nat)
    requires i < |s|
  {
    var h := LastMusical(s, i);
    && !IsStatus(s[i]) && h >= 0 && IsNote(s[h])
    && (exists k :: h < k < i && IsRealTime(s[k]))
    && DataBytes(s, h + 1, i + 1) % 2 == 0
    && LastData(s, i) > h && s[LastData(s, i)] + TRANSPOSE < 128
  }

  /** What is left of the first n bytes without the real-time ones. */
  ghost predicate Viewed(s: seq<byte>, n: nat)
    requires n <= |s|
  {
    var m, h := Musical(s[..n]), LastMusical(s, n);
    var g := LastStatus(m, |m|);
    && (h < 0 <==> g < 0)
    && (h >= 0 ==>
          && m[g] == s[h]
          && |m| - 1 - g == DataBytes(s, h + 1, n)
          && (|m| - 1 > g <==> LastData(s, n) > h)
          && (|m| - 1 > g ==> m[|m| - 1] == s[LastData(s, n)]))
  }

  lemma {:induction false} MusicalView(s: seq<byte>, n: nat)
    requires n <= |s|
    ensures Viewed(s, n)
  {
    if n > 0 {
      MusicalView(s, n - 1);
      assert s[..n][..n - 1] == s[..n - 1];
      var m, b := Musical(s[..n - 1]), s[n - 1];
      if !IsRealTime(b) {
        assert Musical(s[..n]) == m + [b];
        LastStatusPrefix(m + [b], m, |m|);
      } else {
        assert Musical(s[..n]) == m;
      }
    } else {
      assert s[..0] == [];
    }
  }

  lemma LostIsCutOff(s: seq<byte>, i: nat)
    requires i < |s|
    ensures Lost(s, i) <==> CutOff(s, i)
  {
    var h := LastMusical(s, i);
    var m := Musical(s[..i]);
    MusicalView(s, i);
    if !IsStatus(s[i]) {
      assert s[..i + 1][..i] == s[..i];
      assert Musical(s[..i + 1]) == m + [s[i]];
      LastStatusPrefix(m + [s[i]], m, |m|);
      var last := LastStatus(s, i);
      if h >= 0 && exists k :: h < k < i && IsRealTime(s[k]) {
        assert last > h;
      }
    }
  }

  /** After any bytes at all, a whole note message adds its echo, six semitones up, unless
      that leaves the range; and so does another pair under the same status byte. */
  lemma NoteEchoed(s: seq<byte>, status: byte, a: byte, b: byte, c: byte, d: byte)
    requires 0x80 <= status < 0xa0 && a < 0x80 && b < 0x80 && c < 0x80 && d < 0x80
    ensures Echoed(s + [status] + [a] + [b]) == Echoed(s) + if a < 122 then [(status, a + 6, b)] else []
    ensures Echoed(s + [status] + [a] + [b] + [c] + [d]) ==
      Echoed(s + [status] + [a] + [b]) + if c < 122 then [(status, c + 6, d)] else []
  {
    var t := s + [status] + [a] + [b];
    EchoedEmitted(s, status);
    EchoedEmitted(s + [status], a);
    EchoedEmitted(s + [status] + [a], b);
    EchoedEmitted(t, c);
    EchoedEmitted(t + [c], d);
    LastStatusAt(t, |s| + 2, |s|);
    LastStatusAt(t + [c] + [d], |s| + 4, |s|);
    LastStatusAt(t + [c], |s| + 3, |s|);
    LastStatusAt(s + [status] + [a], |s| + 1, |s|);
  }

  /** The echo writes what MIDI 1.0 asks for exactly when no real-time byte cuts a note
      to be echoed off from its status byte. */
  lemma EchoFollowsMidi(s: seq<byte>)
    ensures Echoed(s) == MidiEchoed(s) <==> forall i: nat | i < |s| :: !CutOff(s, i)
  {
    EchoVersusMidi(s);
    forall i: nat | i < |s|
      ensures Lost(s, i) <==> CutOff(s, i)
    {
      LostIsCutOff(s, i);
    }
  }

  /** Note on, with a timing clock before its two data bytes: nothing is echoed. */
  lemma ClockSwallowsNote()
    ensures var s := [0x90, 0xf8, 60, 100]; Echoed(s) == [] && MidiEchoed(s) == [(0x90, 66, 100)]
  {
    var t: seq<byte> := [0x90, 60, 100];
    assert LastStatus(t, 2) == 0 && EchoedUpTo(t, 2) == [];
    assert Echoed(t) == [(0x90, 66, 100)];
    var s1: seq<byte> := [0x90, 0xf8];
    var s: seq<byte> := s1 + [60, 100];
    assert Musical(s1) == [0x90] by { assert s1[..1] == [0x90] && s1[..1][..0] == []; }
    MusicalTail(s, 2);
    assert Musical(s) == t by { assert s[..2] == s1 && s[2..] == [60, 100]; }
    assert LastStatus(s, 3) == 1 && LastStatus(s, 2) == 1;
    assert EchoedUpTo(s, 1) == [] && EchoedUpTo(s, 2) == [];
    assert EchoedUpTo(s, 3) == [];
    assert s == [0x90, 0xf8, 60, 100];
  }
}
