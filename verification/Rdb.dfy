/** The snapshot encoder and decoder of rdb.go, over byte sequences in place of files. */
module Rdb {
  import opened Prelude
  import opened Crc32
  import opened RdbSpec

  /** uint8(db): Go keeps the low eight bits, also of a negative number. */
  function LowByte(db: int): Byte {
    (db % 256) as Byte
  }

  /** A byte's number is written as that byte, and every 256th number after it or before it, too. */
  lemma LowByteMeaning(b: Byte, k: int)
    ensures LowByte(b as int + 256 * k) == b
  {
    SameRemainder(b as int, k);
    assert ((b as int) as Byte) == b;
  }

  lemma SameRemainder(x: int, k: int)
    requires 0 <= x < 256
    ensures (x + 256 * k) % 256 == x
  {}

  /** What has been written, and the running checksum of it. */
  class RDBEncoder {
    var writer: Str
    var crc32: bv32

    /** The running checksum is that of the bytes written so far. */
    ghost predicate InStep()
      reads this
    {
      crc32 == Checksum(writer)
    }

    constructor ()
      ensures writer == [] && InStep()
    {
      writer, crc32 := [], Checksum([]);
    }

    method UpdateCRC32(data: Str)
      modifies this`crc32
      ensures crc32 == Update(old(crc32), data)
    {
      crc32 := Update(crc32, data);
    }

    method WriteHeader()
      requires InStep()
      modifies this
      ensures InStep() && writer == old(writer) + MAGIC + VERSION
    {
      hide Update, Checksum;
      writer := writer + MAGIC;
      writer := writer + VERSION;
      UpdateConcat(old(writer), MAGIC);
      UpdateCRC32(MAGIC);
      UpdateConcat(old(writer) + MAGIC, VERSION);
      UpdateCRC32(VERSION);
    }

    method WriteSelectDB(db: int)
      requires InStep()
      modifies this
      ensures InStep() && writer == old(writer) + [SELECT_DB, LowByte(db)]
    {
      hide Update, Checksum;
      writer := writer + [SELECT_DB];
      writer := writer + [LowByte(db)];
      UpdateConcat(old(writer), [SELECT_DB]);
      UpdateCRC32([SELECT_DB]);
      UpdateConcat(old(writer) + [SELECT_DB], [LowByte(db)]);
      UpdateCRC32([LowByte(db)]);
    }

    /** Writes no entries, only the terminator. */
    method WriteCache()
      requires InStep()
      modifies this
      ensures InStep() && writer == old(writer) + [TERMINATOR]
    {
      hide Update, Checksum;
      writer := writer + [TERMINATOR];
      UpdateConcat(old(writer), [TERMINATOR]);
      UpdateCRC32([TERMINATOR]);
    }

    /** The seal itself is not summed. */
    method WriteFooter()
      requires InStep()
      modifies this`writer
      ensures writer == old(writer) + LittleEndian(Checksum(old(writer)))
    {
      writer := writer + LittleEndian(crc32);
    }
  }

  /** The encoding sequence inside Save, which passes 0 for db. */
  method Save(db: int) returns (written: Str)
    ensures written == Sealed(VERSION, LowByte(db), [])
    ensures |written| == 16 && written[10] == LowByte(db)
    ensures Outcome(written) == None <==> db % 256 == 0
  {
    hide Checksum, LittleEndian, Outcome;
    var encoder := new RDBEncoder();
    encoder.WriteHeader();
    encoder.WriteSelectDB(db);
    encoder.WriteCache();
    assert encoder.writer == Frame(VERSION, LowByte(db), []);
    encoder.WriteFooter();
    written := encoder.writer;
    SealedOutcome(VERSION, LowByte(db), [], []);
    assert written + [] == written;
  }

  /** Summing the bytes between two positions moves the sum from the first to the second. */
  lemma Sums(s: Str, i: nat, j: nat)
    requires i <= j <= |s|
    ensures Update(Checksum(s[..i]), s[i..j]) == Checksum(s[..j])
  {
    UpdateConcat(s[..i], s[i..j]);
    assert s[..i] + s[i..j] == s[..j];
  }

  lemma FirstSkips(s: Str, from: nat)
    requires from < |s|
    ensures First(s, from) == if s[from] == TERMINATOR then from else First(s, from + 1)
  {}

  /** What is left to read, and the running checksum; `input` is the whole stream. */
  class RDBDecoder {
    ghost const input: Str
    var reader: Str
    var crc32: bv32

    ghost function Consumed(): int
      reads this
    {
      |input| - |reader|
    }

    ghost predicate Reads()
      reads this
    {
      |reader| <= |input| && reader == input[|input| - |reader|..]
    }

    /** The running checksum is that of the bytes read so far. */
    ghost predicate InStep()
      reads this
    {
      Reads() && crc32 == Checksum(input[..Consumed()])
    }

    constructor (s: Str)
      ensures input == reader == s && InStep()
    {
      input, reader, crc32 := s, s, Checksum([]);
    }

    /** io.ReadFull: n bytes or, after taking what there is, an error. */
    method ReadFull(n: nat) returns (data: Str, ok: bool)
      requires Reads()
      modifies this`reader
      ensures Reads()
      ensures ok == (n <= |old(reader)|)
      ensures ok ==> data == old(reader)[..n] && reader == old(reader)[n..]
      ensures ok ==> data == input[old(Consumed())..Consumed()] && Consumed() == old(Consumed()) + n
      ensures !ok ==> reader == []
    {
      ok := n <= |reader|;
      if ok {
        data, reader := reader[..n], reader[n..];
      } else {
        data, reader := [], [];
      }
    }

    method UpdateCRC32(data: Str)
      modifies this`crc32
      ensures crc32 == Update(old(crc32), data)
    {
      crc32 := Update(crc32, data);
    }

    /** The end of the stream is met before the magic is looked at. */
    method ReadHeader() returns (error: Option<Error>)
      requires InStep()
      modifies this
      ensures Reads()
      ensures error ==
              if |old(reader)| < 9 then Some(EndOfStream)
              else if old(reader)[..5] != MAGIC then Some(BadMagic)
              else None
      ensures error == None ==> InStep() && Consumed() == old(Consumed()) + 9
      ensures error != None ==> crc32 == old(crc32)
    {
      hide Update, Checksum;
      var magic, version, ok;
      magic, ok := ReadFull(5);
      if !ok {
        return Some(EndOfStream);
      }
      version, ok := ReadFull(4);
      if !ok {
        return Some(EndOfStream);
      }
      if magic != MAGIC {
        return Some(BadMagic);
      }
      Sums(input, old(Consumed()), old(Consumed()) + 5);
      UpdateCRC32(magic);
      Sums(input, old(Consumed()) + 5, old(Consumed()) + 9);
      UpdateCRC32(version);
      return None;
    }

    method ReadSelectDB() returns (db: int, error: Option<Error>)
      requires InStep()
      modifies this
      ensures Reads()
      ensures error ==
              if old(reader) == [] then Some(EndOfStream)
              else if old(reader)[0] != SELECT_DB then Some(BadOpcode)
              else if |old(reader)| < 2 then Some(EndOfStream)
              else None
      ensures error == None ==> InStep() && Consumed() == old(Consumed()) + 2 && db == old(reader)[1] as int
      ensures error != None ==> db == 0
    {
      hide Update, Checksum;
      var opcode, ok := ReadFull(1);
      if !ok {
        return 0, Some(EndOfStream);
      }
      if opcode[0] != SELECT_DB {
        return 0, Some(BadOpcode);
      }
      Sums(input, old(Consumed()), old(Consumed()) + 1);
      UpdateCRC32(opcode);
      var number;
      number, ok := ReadFull(1);
      if !ok {
        return 0, Some(EndOfStream);
      }
      Sums(input, old(Consumed()) + 1, old(Consumed()) + 2);
      UpdateCRC32(number);
      return number[0] as int, None;
    }

    /** Skips to behind the first terminator. */
    method ReadCache() returns (error: Option<Error>)
      requires InStep()
      modifies this
      ensures InStep()
      ensures var e := First(input, old(Consumed()));
              if e < |input| then error == None && Consumed() == e + 1
              else error == Some(EndOfStream) && reader == []
    {
      hide Update, Checksum, First;
      while true
        invariant InStep() && old(Consumed()) <= Consumed()
        invariant First(input, Consumed()) == First(input, old(Consumed()))
        decreases |reader|
      {
        ghost var at := Consumed();
        var opcode, ok := ReadFull(1);
        if !ok {
          return Some(EndOfStream);
        }
        Sums(input, at, at + 1);
        FirstSkips(input, at);
        UpdateCRC32(opcode);
        if opcode[0] == TERMINATOR {
          break;
        }
      }
      return None;
    }

    /** The four bytes of the seal are read but not summed. */
    method VerifyChecksum() returns (error: Option<Error>)
      requires InStep()
      modifies this`reader
      ensures Reads()
      ensures error ==
              if |old(reader)| < 4 then Some(EndOfStream)
              else if FromLittleEndian(old(reader)[..4]) != Checksum(input[..old(Consumed())]) then Some(ChecksumMismatch)
              else None
      ensures error == None ==> Consumed() == old(Consumed()) + 4
    {
      hide Checksum, FromLittleEndian;
      var seal, ok := ReadFull(4);
      if !ok {
        return Some(EndOfStream);
      }
      if FromLittleEndian(seal) != crc32 {
        return Some(ChecksumMismatch);
      }
      return None;
    }
  }

  lemma Slice(s: Str, i: nat, n: nat)
    requires i + n <= |s|
    ensures s[i..][..n] == s[i..i + n]
  {}

  /** The decoding sequence inside Load: the first stage that fails decides. */
  method Load(s: Str) returns (error: Option<Error>)
    ensures error == Outcome(s)
    ensures error == None <==> exists version, body, rest :: Splits(s, version, body, rest)
  {
    hide Checksum, FromLittleEndian, First;
    AcceptedLanguage(s);
    hide Splits;
    var decoder := new RDBDecoder(s);
    error := decoder.ReadHeader();
    if error != None {
      return;
    }
    var db;
    db, error := decoder.ReadSelectDB();
    if error != None {
      return;
    }
    if db != 0 {
      return Some(UnsupportedDB(db));
    }
    error := decoder.ReadCache();
    if error != None {
      return;
    }
    var e := First(s, 11);
    if e + 5 <= |s| {
      Slice(s, e + 1, 4);
    }
    error := decoder.VerifyChecksum();
  }
}
