/**
  The snapshot format: which streams the decoder's sequence accepts, and what goes wrong
  when one byte of an accepted stream changes.
 */
module RdbSpec {
  import opened Prelude
  import opened Crc32

  const MAGIC: Str := [0x52, 0x45, 0x44, 0x49, 0x53]  // "REDIS"
  const VERSION: Str := [0x30, 0x30, 0x30, 0x31]      // "0001"
  const SELECT_DB: Byte := 0xFE
  const TERMINATOR: Byte := 0xFF

  lemma HeaderText()
    ensures Spells(MAGIC, "REDIS") && Spells(VERSION, "0001")
  {}

  datatype Error = EndOfStream | BadMagic | BadOpcode | UnsupportedDB(db: int) | ChecksumMismatch

  function LittleEndian(c: bv32): (s: Str)
    ensures |s| == 4
  {
    [(c & 0xFF) as Byte, ((c >> 8) & 0xFF) as Byte, ((c >> 16) & 0xFF) as Byte, ((c >> 24) & 0xFF) as Byte]
  }

  function FromLittleEndian(s: Str): bv32
    requires |s| == 4
  {
    (s[0] as bv32) | ((s[1] as bv32) << 8) | ((s[2] as bv32) << 16) | ((s[3] as bv32) << 24)
  }

  lemma LittleEndianRoundTrip(c: bv32)
    ensures FromLittleEndian(LittleEndian(c)) == c
  {}

  lemma LittleEndianInverse(s: Str)
    requires |s| == 4
    ensures LittleEndian(FromLittleEndian(s)) == s
  {
    BytesOf(s[0], s[1], s[2], s[3]);
  }

  lemma BytesOf(a: Byte, b: Byte, c: Byte, d: Byte)
    ensures LittleEndian((a as bv32) | ((b as bv32) << 8) | ((c as bv32) << 16) | ((d as bv32) << 24)) == [a, b, c, d]
  {}

  /** Where the first terminator at or after `from` stands; |s| if there is none. */
  function First(s: Str, from: nat): (e: nat)
    requires from <= |s|
    ensures from <= e <= |s|
    ensures forall j :: from <= j < e ==> s[j] != TERMINATOR
    ensures e < |s| ==> s[e] == TERMINATOR
    decreases |s| - from
  {
    if from == |s| || s[from] == TERMINATOR then from else First(s, from + 1)
  }

  /** The first failure of the four stages on stream s, if any. */
  function Outcome(s: Str): Option<Error> {
    if |s| < 9 then Some(EndOfStream)
    else if s[..5] != MAGIC then Some(BadMagic)
    else if |s| < 10 then Some(EndOfStream)
    else if s[9] != SELECT_DB then Some(BadOpcode)
    else if |s| < 11 then Some(EndOfStream)
    else if s[10] != 0 then Some(UnsupportedDB(s[10] as int))
    else
      var e := First(s, 11);
      if |s| < e + 5 then Some(EndOfStream)
      else if FromLittleEndian(s[e + 1..e + 5]) != Checksum(s[..e + 1]) then Some(ChecksumMismatch)
      else None
  }

  // ---- the accepted language ------------------------------------------------------------

  function Frame(version: Str, db: Byte, body: Str): Str {
    MAGIC + version + [SELECT_DB, db] + body + [TERMINATOR]
  }

  function Sealed(version: Str, db: Byte, body: Str): Str {
    Frame(version, db, body) + LittleEndian(Checksum(Frame(version, db, body)))
  }

  /** s is a sealed frame followed by anything. */
  ghost predicate Splits(s: Str, version: Str, body: Str, rest: Str) {
    |version| == 4 && TERMINATOR !in body && s == Sealed(version, 0, body) + rest
  }

  lemma FrameShape(version: Str, db: Byte, body: Str)
    requires |version| == 4
    ensures |Frame(version, db, body)| == 12 + |body|
    ensures Frame(version, db, body)[..5] == MAGIC
    ensures Frame(version, db, body)[5..9] == version
    ensures Frame(version, db, body)[9] == SELECT_DB && Frame(version, db, body)[10] == db
    ensures Frame(version, db, body)[11..11 + |body|] == body
    ensures Frame(version, db, body)[11 + |body|] == TERMINATOR
  {}

  lemma FirstIs(s: Str, from: nat, e: nat)
    requires from <= e < |s| && s[e] == TERMINATOR
    requires forall j :: from <= j < e ==> s[j] != TERMINATOR
    ensures First(s, from) == e
  {}

  lemma PrefixOf(a: Str, b: Str, c: Str, n: nat)
    requires |a| == n && |b| == 4
    ensures (a + b + c)[..n] == a && (a + b + c)[n..n + 4] == b && (a + b + c)[n + 4..] == c
  {}

  /** The facts about a sealed stream that the decoder looks at. */
  lemma SealedShape(s: Str, version: Str, db: Byte, body: Str, rest: Str)
    requires |version| == 4 && TERMINATOR !in body && s == Sealed(version, db, body) + rest
    ensures |s| == 16 + |body| + |rest|
    ensures s[..5] == MAGIC && s[5..9] == version && s[9] == SELECT_DB && s[10] == db
    ensures First(s, 11) == 11 + |body|
    ensures s[11..11 + |body|] == body
    ensures s[..12 + |body|] == Frame(version, db, body)
    ensures s[12 + |body|..16 + |body|] == LittleEndian(Checksum(Frame(version, db, body)))
    ensures s[16 + |body|..] == rest
  {
    hide LittleEndian, Checksum;
    var f := Frame(version, db, body);
    FrameShape(version, db, body);
    PrefixOf(f, LittleEndian(Checksum(f)), rest, 12 + |body|);
    hide Frame, Sealed;
    FrameOf(s, f, body);
    FirstIs(s, 11, 11 + |body|);
  }

  lemma FrameOf(s: Str, f: Str, body: Str)
    requires |f| == 12 + |body| <= |s| && s[..|f|] == f && f[11..11 + |body|] == body
    ensures s[..5] == f[..5] && s[5..9] == f[5..9] && s[9] == f[9] && s[10] == f[10]
    ensures s[11..11 + |body|] == body
    ensures forall j :: 11 <= j < 11 + |body| ==> s[j] == body[j - 11]
    ensures s[11 + |body|] == f[11 + |body|]
  {
    forall j | 0 <= j < |f| ensures s[j] == f[j] { assert s[..|f|][j] == f[j]; }
    forall j | 11 <= j < 11 + |body| ensures s[j] == body[j - 11] {
      assert f[11..11 + |body|][j - 11] == f[j];
    }
  }

  /** What the encoder's bytes lead to, for any selected number. */
  lemma SealedOutcome(version: Str, db: Byte, body: Str, rest: Str)
    requires |version| == 4 && TERMINATOR !in body
    ensures Outcome(Sealed(version, db, body) + rest) == if db == 0 then None else Some(UnsupportedDB(db as int))
  {
    hide LittleEndian, FromLittleEndian, Checksum, Sealed, Frame;
    SealedShape(Sealed(version, db, body) + rest, version, db, body, rest);
    LittleEndianRoundTrip(Checksum(Frame(version, db, body)));
  }

  /** An accepted stream is put together again from the parts the stages read. */
  lemma AcceptedSplits(s: Str)
    requires Outcome(s) == None
    ensures Splits(s, s[5..9], s[11..First(s, 11)], s[First(s, 11) + 5..])
  {
    hide LittleEndian, FromLittleEndian, Checksum;
    var e := First(s, 11);
    Reassemble(s, e);
    LittleEndianInverse(s[e + 1..e + 5]);
    PartsOf(s, e);
  }

  lemma Reassemble(s: Str, e: nat)
    requires 11 <= e < |s| && s[..5] == MAGIC && s[9] == SELECT_DB && s[10] == 0 && s[e] == TERMINATOR
    ensures s[..e + 1] == Frame(s[5..9], 0, s[11..e])
  {
    var f := Frame(s[5..9], 0, s[11..e]);
    FrameShape(s[5..9], 0, s[11..e]);
    hide Frame;
    FrameOf(f, f, s[11..e]);
    forall j | 0 <= j < e + 1 ensures s[j] == f[j] {
      if j < 5 { assert s[..5][j] == f[..5][j]; } else if j < 9 { assert s[5..9][j - 5] == f[5..9][j - 5]; }
    }
  }

  lemma PartsOf(s: Str, e: nat)
    requires e + 5 <= |s|
    ensures s == s[..e + 1] + s[e + 1..e + 5] + s[e + 5..]
  {}

  /** The accepted streams are exactly the sealed frames, each followed by anything. */
  lemma AcceptedLanguage(s: Str)
    ensures Outcome(s) == None <==> exists version, body, rest :: Splits(s, version, body, rest)
  {
    if Outcome(s) == None {
      AcceptedSplits(s);
    }
    if version, body, rest :| Splits(s, version, body, rest) {
      SealedOutcome(version, 0, body, rest);
    }
  }

  lemma UniqueSplit(s: Str, version: Str, body: Str, rest: Str, version': Str, body': Str, rest': Str)
    requires Splits(s, version, body, rest) && Splits(s, version', body', rest')
    ensures version == version' && body == body' && rest == rest'
  {
    hide Sealed;
    SealedShape(s, version, 0, body, rest);
    SealedShape(s, version', 0, body', rest');
  }

  // ---- one changed byte -----------------------------------------------------------------

  /** What the seal behind position f says of the stream, when the terminator stands at f. */
  function SealedAt(t: Str, f: nat): Option<Error>
    requires f < |t|
  {
    if |t| < f + 5 then Some(EndOfStream)
    else if FromLittleEndian(t[f + 1..f + 5]) != Checksum(t[..f + 1]) then Some(ChecksumMismatch)
    else None
  }

  /** Does changing position i to b move the first terminator, to f? */
  predicate MovesTerminator(s: Str, i: nat, b: Byte, f: nat)
    requires 11 <= |s|
  {
    var e := First(s, 11);
    || (11 <= i < e && b == TERMINATOR && f == i)
    || (i == e < |s| && b != TERMINATOR && f == First(s, e + 1))
  }

  /** What decoding says of s, an accepted stream, after position i changes to b. */
  function Symptom(s: Str, i: nat, b: Byte): Option<Error>
    requires Outcome(s) == None && i < |s| && b != s[i]
  {
    var e := First(s, 11);
    if i < 5 then Some(BadMagic)
    else if i == 9 then Some(BadOpcode)
    else if i == 10 then Some(UnsupportedDB(b as int))
    else if 11 <= i < e && b == TERMINATOR then
      // the frame ends early, and the body's next bytes are taken for the seal
      if FromLittleEndian(s[i + 1..i + 5]) == Checksum(s[..i] + [TERMINATOR]) then None else Some(ChecksumMismatch)
    else if i == e then
      // the frame goes on, into the old seal and what follows it
      var f := First(s, e + 1);
      if f == |s| then Some(EndOfStream) else SealedAt(s[e := b], f)
    else if i < e + 5 then Some(ChecksumMismatch)
    else None
  }

  lemma SameFirst(s: Str, t: Str, from: nat)
    requires |s| == |t| && from <= |s|
    requires First(s, from) < |s|
    requires forall j :: from <= j <= First(s, from) ==> (s[j] == TERMINATOR <==> t[j] == TERMINATOR)
    ensures First(t, from) == First(s, from)
  {
    FirstIs(t, from, First(s, from));
  }

  lemma MagicBroken(s: Str, i: nat, b: Byte)
    requires Outcome(s) == None && i < 5 && b != s[i]
    ensures s[i := b][..5] != MAGIC
  {
    hide Checksum, First, FromLittleEndian;
    assert s[i := b][..5][i] == b;
    assert s[..5][i] == s[i];
  }

  lemma FrameByteBroken(s: Str, i: nat, b: Byte, e: nat)
    requires i <= e && e + 5 <= |s| && b != s[i]
    ensures Checksum(s[i := b][..e + 1]) != Checksum(s[..e + 1])
    ensures s[i := b][e + 1..e + 5] == s[e + 1..e + 5]
  {
    hide Checksum;
    OneByteChangesChecksum(s[..e + 1], i, b);
    assert s[i := b][..e + 1] == s[..e + 1][i := b];
  }

  lemma SealByteBroken(s: Str, i: nat, b: Byte, e: nat)
    requires e < i < e + 5 <= |s| && b != s[i]
    ensures FromLittleEndian(s[i := b][e + 1..e + 5]) != FromLittleEndian(s[e + 1..e + 5])
    ensures s[i := b][..e + 1] == s[..e + 1]
  {
    hide FromLittleEndian, LittleEndian;
    LittleEndianInverse(s[i := b][e + 1..e + 5]);
    LittleEndianInverse(s[e + 1..e + 5]);
    assert s[i := b][e + 1..e + 5][i - e - 1] == b;
    assert s[e + 1..e + 5][i - e - 1] == s[i];
  }

  /** A new terminator ends the frame early. */
  lemma TerminatorMade(s: Str, i: nat)
    requires Outcome(s) == None && 11 <= i < First(s, 11)
    ensures Outcome(s[i := TERMINATOR]) == Symptom(s, i, TERMINATOR)
  {
    hide Checksum, FromLittleEndian, First;
    var t := s[i := TERMINATOR];
    FirstIs(t, 11, i);
    assert t[..5] == s[..5];
    assert t[..i + 1] == s[..i] + [TERMINATOR];
    assert t[i + 1..i + 5] == s[i + 1..i + 5];
  }

  /** Without its terminator the frame goes on to the next 0xFF, if there is one. */
  lemma TerminatorRemoved(s: Str, b: Byte)
    requires Outcome(s) == None && b != TERMINATOR
    ensures Outcome(s[First(s, 11) := b]) == Symptom(s, First(s, 11), b)
  {
    hide Checksum, FromLittleEndian;
    var e := First(s, 11);
    var t, f := s[e := b], First(s, e + 1);
    assert t[..5] == s[..5];
    FirstAfter(s, e, b, f);
    hide First;
  }

  lemma FirstAfter(s: Str, e: nat, b: Byte, f: nat)
    requires 11 <= e < |s| && e == First(s, 11) && b != TERMINATOR && f == First(s, e + 1)
    ensures First(s[e := b], 11) == f
  {
    var t := s[e := b];
    assert forall j :: 11 <= j < f ==> t[j] != TERMINATOR;
    var g := First(t, 11);
    if f < |s| {
      FirstIs(t, 11, f);
    }
  }

  /** Every change of one byte of an accepted stream, and exactly what decoding says of it. */
  lemma OneByteIsNoticed(s: Str, i: nat, b: Byte)
    requires Outcome(s) == None
    requires i < |s| && b != s[i]
    ensures Outcome(s[i := b]) == Symptom(s, i, b)
  {
    hide Checksum, FromLittleEndian, First;
    var e, t := First(s, 11), s[i := b];
    if i < 5 {
      MagicBroken(s, i, b);
    } else if 11 <= i < e && b == TERMINATOR {
      TerminatorMade(s, i);
    } else if i == e {
      TerminatorRemoved(s, b);
    } else {
      assert t[..5] == s[..5];
      SameFirst(s, t, 11);
      if i < e + 1 {
        FrameByteBroken(s, i, b, e);
      } else if i < e + 5 {
        SealByteBroken(s, i, b, e);
      } else {
        assert t[..e + 1] == s[..e + 1] && t[e + 1..e + 5] == s[e + 1..e + 5];
      }
    }
  }

  /**
    When one changed byte goes unnoticed, exactly: behind the seal; or at a new terminator
    whose next four bytes happen to be the checksum of the shorter frame; or at the old one, if
    there is another and its next four bytes are the checksum of the longer frame.
   */
  lemma UnnoticedIff(s: Str, i: nat, b: Byte)
    requires Outcome(s) == None
    requires i < |s| && b != s[i]
    ensures Outcome(s[i := b]) == None <==>
            || First(s, 11) + 5 <= i
            || exists f: nat :: f + 5 <= |s| && MovesTerminator(s, i, b, f)
                 && FromLittleEndian(s[f + 1..f + 5]) == Checksum(s[i := b][..f + 1])
  {
    hide Checksum, FromLittleEndian, First;
    OneByteIsNoticed(s, i, b);
    var e, t := First(s, 11), s[i := b];
    if 11 <= i < e && b == TERMINATOR {
      assert t[..i + 1] == s[..i] + [TERMINATOR];
      assert MovesTerminator(s, i, b, i);
    } else if i == e {
      var f := First(s, e + 1);
      assert MovesTerminator(s, i, b, f);
      assert f + 5 <= |s| ==> t[f + 1..f + 5] == s[f + 1..f + 5];
    }
  }

  // ---- a change that goes unnoticed ----------------------------------------------------------------

  /** The states of the sum along "REDIS", "0001", 0xFE, 0x00, 0xFF. */
  lemma KnownSteps()
    ensures Step(0xFFFF_FFFF, 0x52) == 0xA898_20AA
    ensures Step(0xA898_20AA, 0x45) == 0x301D_67C9
    ensures Step(0x301D_67C9, 0x44) == 0x9339_E2FA
    ensures Step(0x9339_E2FA, 0x49) == 0x52FB_DBD4
    ensures Step(0x52FB_DBD4, 0x53) == 0x738E_ED58
    ensures Step(0x738E_ED58, 0x30) == 0x431A_6787
    ensures Step(0x431A_6787, 0x30) == 0x5546_3C48
    ensures Step(0x5546_3C48, 0x30) == 0x5E8B_BF32
    ensures Step(0x5E8B_BF32, 0x31) == 0x9957_DA05
    ensures Step(0x9957_DA05, 0xFE) == 0x2AF6_7C4E
    ensures Step(0x2AF6_7C4E, 0x00) == 0x914E_9AEB
    ensures Step(0x914E_9AEB, 0xFF) == 0x1A4B_9AE7
  {}

  lemma FoldPrefix(c: bv32, s: Str, n: nat)
    requires n < |s|
    ensures Fold(c, s[..n + 1]) == Step(Fold(c, s[..n]), s[n])
  {
    hide Step;
    assert s[..n + 1][..n] == s[..n];
  }

  /** The checksum of the frame that the encoder writes for number 0. */
  lemma KnownChecksum()
    ensures Checksum(Frame(VERSION, 0, [])) == 0xE5B4_6518
  {
    var whole: Str := [0x52, 0x45, 0x44, 0x49, 0x53, 0x30, 0x30, 0x30, 0x31, 0xFE, 0x00, 0xFF];
    assert Frame(VERSION, 0, []) == whole;
    FoldWhole(whole);
    assert Not(0) == 0xFFFF_FFFF && Not(0x1A4B_9AE7) == 0xE5B4_6518;
    hide Fold, Frame, Not;
  }

  lemma FoldWhole(whole: Str)
    requires whole == [0x52, 0x45, 0x44, 0x49, 0x53, 0x30, 0x30, 0x30, 0x31, 0xFE, 0x00, 0xFF]
    ensures Fold(0xFFFF_FFFF, whole) == 0x1A4B_9AE7
  {
    KnownSteps();
    hide Step, Fold;
    FoldPrefix(0xFFFF_FFFF, whole, 0);
    FoldPrefix(0xFFFF_FFFF, whole, 1);
    FoldPrefix(0xFFFF_FFFF, whole, 2);
    FoldPrefix(0xFFFF_FFFF, whole, 3);
    FoldPrefix(0xFFFF_FFFF, whole, 4);
    FoldPrefix(0xFFFF_FFFF, whole, 5);
    FoldPrefix(0xFFFF_FFFF, whole, 6);
    FoldPrefix(0xFFFF_FFFF, whole, 7);
    FoldPrefix(0xFFFF_FFFF, whole, 8);
    FoldPrefix(0xFFFF_FFFF, whole, 9);
    FoldPrefix(0xFFFF_FFFF, whole, 10);
    FoldPrefix(0xFFFF_FFFF, whole, 11);
    assert Fold(0xFFFF_FFFF, whole[..0]) == 0xFFFF_FFFF by { assert whole[..0] == []; FoldNothing(0xFFFF_FFFF); }
    assert whole[..12] == whole;
  }

  lemma FoldNothing(c: bv32)
    ensures Fold(c, []) == c
  {}

  /**
    Both ways of moving the terminator happen: the body may hold, right behind the changed
    byte, the checksum of the shorter frame that the change makes; and changing that byte back
    takes one of two terminators away.
   */
  lemma MovedTerminatorCanHide() returns (s: Str, t: Str)
    ensures Outcome(s) == None && 11 < First(s, 11) && t == s[11 := TERMINATOR]
    ensures Outcome(t) == None && First(t, 11) == 11 && t[11 := 0] == s
  {
    var seal: Str := [0x18, 0x65, 0xB4, 0xE5];
    var short := Frame(VERSION, 0, []);
    assert LittleEndian(Checksum(short)) == seal by { KnownChecksum(); hide Checksum, Frame; }
    hide Checksum, LittleEndian, Outcome;
    s := Sealed(VERSION, 0, [0] + seal);
    SealedOutcome(VERSION, 0, [0] + seal, []);
    SealedShape(s + [], VERSION, 0, [0] + seal, []);
    assert s + [] == s;
    var rest := s[16..];
    SealedOutcome(VERSION, 0, [], rest);
    t := s[11 := TERMINATOR];
    assert t == Sealed(VERSION, 0, []) + rest;
    SealedShape(t, VERSION, 0, [], rest);
    assert s[11] == 0 by { assert s[11..16] == [0] + seal; }
  }
}
