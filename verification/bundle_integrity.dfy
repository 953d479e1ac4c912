/** crc32sum and crc32check together: what a bundle says about files that changed since. */
module BundleIntegrity {
  import opened Machine
  import opened Crc
  import opened CrcWords
  import opened CrcRfc1952
  import opened CrcBurst
  import opened Bundle

  // ----- the number that is printed

  /** The number a 32-bit word stands for, from its bits, least significant first. */
  function Number(word: bv32): (n: nat)
    ensures n < WORD32
  {
    ValueBound(LowBits(word, 32));
    Pow2Word();
    Value(LowBits(word, 32))
  }

  function Value(bits: seq<bool>): (v: nat)
    decreases |bits|
  {
    if bits == [] then 0 else (if bits[0] then 1 else 0) + 2 * Value(bits[1..])
  }

  lemma Pow2Word()
    ensures Pow2(32) == WORD32
  {
    assert Pow2(8) == 256;
    assert Pow2(16) == 256 * Pow2(8);
    assert Pow2(24) == 256 * Pow2(16);
  }

  lemma {:induction false} ValueBound(bits: seq<bool>)
    ensures Value(bits) < Pow2(|bits|)
    decreases |bits|
  {
    if bits != [] { ValueBound(bits[1..]); }
  }

  lemma {:induction false} ValueInjective(a: seq<bool>, b: seq<bool>)
    requires |a| == |b| && Value(a) == Value(b)
    ensures a == b
    decreases |a|
  {
    if a != [] {
      ValueInjective(a[1..], b[1..]);
      assert a == [a[0]] + a[1..] && b == [b[0]] + b[1..];
    }
  }

  lemma NumberInjective(x: bv32, y: bv32)
    requires Number(x) == Number(y)
    ensures x == y
  {
    hide LowBits, Bits, Reverse, Value;
    ValueInjective(LowBits(x, 32), LowBits(y, 32));
    ReversedBits(x, 32);
    ReversedBits(y, 32);
    BitsInjective(Reverse(x), Reverse(y));
    ReverseInvolutive(x);
    ReverseInvolutive(y);
  }

  /** Bit `k` of a word, found by shifting it down to the low end. */
  predicate BitAt(word: bv32, k: nat)
  {
    Low(ShiftDown(word, k))
  }

  /** The weights of the bits below `n` that are set. */
  function SumOfBits(word: bv32, n: nat): (v: nat)
  {
    if n == 0 then 0 else SumOfBits(word, n - 1) + (if BitAt(word, n - 1) then Pow2(n - 1) else 0)
  }

  lemma {:induction false} SumShifted(word: bv32, n: nat)
    ensures SumOfBits(word, n + 1) == (if Low(word) then 1 else 0) + 2 * SumOfBits(word >> 1, n)
    decreases n
  {
    hide Low;
    if n > 0 {
      SumShifted(word, n - 1);
      assert BitAt(word, n) == BitAt(word >> 1, n - 1);
    } else {
      assert SumOfBits(word, 1) == SumOfBits(word, 0) + (if BitAt(word, 0) then Pow2(0) else 0);
    }
  }

  lemma {:induction false} ValueIsSum(word: bv32, n: nat)
    ensures Value(LowBits(word, n)) == SumOfBits(word, n)
    decreases n
  {
    hide Low;
    if n > 0 {
      ValueIsSum(word >> 1, n - 1);
      SumShifted(word, n - 1);
      assert LowBits(word, n)[1..] == LowBits(word >> 1, n - 1);
    }
  }

  /** The number of a word is the sum of 2^k over its set bits k. */
  lemma NumberIsPositional(word: bv32)
    ensures Number(word) == SumOfBits(word, 32)
  {
    hide LowBits, Value, SumOfBits;
    ValueIsSum(word, 32);
  }

  // ----- disks

  /** What is at a path: nothing, a file whose read() fails, or readable contents. */
  datatype Contents = Absent | Broken | Bytes(bytes: seq<bv8>)

  type Disk = string -> Contents

  function FilesOf(disk: Disk): (files: string -> FileState)
  {
    (name: string) => StateOf(disk(name))
  }

  function StateOf(contents: Contents): (s: FileState)
  {
    match contents
    case Absent => Missing
    case Broken => Unreadable
    case Bytes(bytes) => Hashed(Number(Hash(bytes)))
  }

  /** The contents differ, and only inside 32 consecutive bits of the stream. */
  ghost predicate Damaged(a: seq<bv8>, b: seq<bv8>)
  {
    |a| == |b| && a != b && exists start: nat :: AgreeOutside(StreamBits(a), StreamBits(b), start)
  }

  /** The paths that can be read, in order. */
  function Readable(names: seq<string>, disk: Disk): (r: seq<string>)
    ensures forall k :: 0 <= k < |r| ==> r[k] in names && disk(r[k]).Bytes?
  {
    if names == [] then []
    else
      var n := |names| - 1;
      Readable(names[..n], disk) + (if disk(names[n]).Bytes? then [names[n]] else [])
  }

  lemma ReadableSnoc(names: seq<string>, name: string, disk: Disk)
    ensures Readable(names + [name], disk) == Readable(names, disk) + (if disk(name).Bytes? then [name] else [])
  {
    assert (names + [name])[..|names|] == names;
  }

  /** Path by path, so that neither order nor repetition can change. */
  lemma {:induction false} ReadableConcat(a: seq<string>, b: seq<string>, disk: Disk)
    ensures Readable(a + b, disk) == Readable(a, disk) + Readable(b, disk)
    decreases |b|
  {
    if b == [] {
      assert a + b == a;
    } else {
      hide Readable;
      var front, name := b[..|b| - 1], b[|b| - 1];
      ReadableConcat(a, front, disk);
      ReadableSnoc(front, name, disk);
      ReadableSnoc(a + front, name, disk);
      assert front + [name] == b && a + front + [name] == a + b;
    }
  }

  lemma ReadableOne(name: string, disk: Disk)
    ensures Readable([name], disk) == if disk(name).Bytes? then [name] else []
  {
    ReadableSnoc([], name, disk);
    assert [] + [name] == [name];
  }

  lemma {:induction false} SummedEntries(names: seq<string>, disk: Disk)
    ensures var es, r := Summed(names, FilesOf(disk)), Readable(names, disk);
      |es| == |r| && forall k :: 0 <= k < |es| ==> es[k] == Entry(Number(Hash(disk(r[k]).bytes)), r[k])
  {
    hide Hash, Number;
    if names != [] {
      var n := |names| - 1;
      SummedEntries(names[..n], disk);
      SummedSnoc(names, disk);
    }
  }

  lemma SummedSnoc(names: seq<string>, disk: Disk)
    requires names != []
    ensures var n := |names| - 1;
      var c := disk(names[n]);
      Summed(names, FilesOf(disk)) == Summed(names[..n], FilesOf(disk))
        + (if c.Bytes? then [Entry(Number(Hash(c.bytes)), names[n])] else [])
  {
    hide Hash, Number;
    var n := |names| - 1;
    assert FilesOf(disk)(names[n]) == StateOf(disk(names[n]));
  }

  lemma DamageChangesHash(a: seq<bv8>, b: seq<bv8>)
    requires Damaged(a, b)
    ensures Number(Hash(a)) != Number(Hash(b))
  {
    hide Hash, StreamBits, AgreeOutside, Number;
    var start: nat :| AgreeOutside(StreamBits(a), StreamBits(b), start);
    BurstDetected(a, b, start);
    if Number(Hash(a)) == Number(Hash(b)) {
      NumberInjective(Hash(a), Hash(b));
    }
  }

  /**
    Sum the files on one disk, check the bundle against another. Every readable file gets its
    own verdict, in order: OK if its contents are the same, FAILED if they were damaged within
    32 consecutive bits, and an error if it can no longer be read. An unchanged disk gives no
    errors, and one damaged or lost file always gives some.
   */
  lemma SumThenCheck(names: seq<string>, before: Disk, after: Disk)
    requires forall name :: name in names ==> GoodName(name)
    ensures var lines := Lines(PrintAll(Summed(names, FilesOf(before))));
      var r, vs := Readable(names, before), Verdicts(lines, FilesOf(after));
      && |vs| == |r|
      && (forall k :: 0 <= k < |r| ==>
            && vs[k].0 == r[k]
            && (after(r[k]) == before(r[k]) ==> vs[k].1 == Ok)
            && (after(r[k]).Bytes? && Damaged(before(r[k]).bytes, after(r[k]).bytes) ==> vs[k].1 == Failed)
            && (!after(r[k]).Bytes? <==> vs[k].1 == CannotRead))
      && (Errors(lines, FilesOf(after)) == 0 <==> forall k :: 0 <= k < |r| ==> vs[k].1 == Ok)
  {
    hide Hash, Number, Lines, PrintAll, Summed, Verdicts, Errors, GoodName, Damaged;
    var es, r := Summed(names, FilesOf(before)), Readable(names, before);
    SummedEntries(names, before);
    CheckOfSum(es, FilesOf(after));
    forall k | 0 <= k < |r| && after(r[k]).Bytes? && Damaged(before(r[k]).bytes, after(r[k]).bytes)
      ensures Number(Hash(before(r[k]).bytes)) != Number(Hash(after(r[k]).bytes))
    {
      DamageChangesHash(before(r[k]).bytes, after(r[k]).bytes);
    }
  }

  // ----- what is printed

  /** Eight hexadecimal digits whose value is the CRC, a space and the name. */
  predicate IsSumLine(line: string, crc: bv32, name: string)
  {
    && |line| >= 8 && line[8..] == " " + name + "\n"
    && (forall i :: 0 <= i < 8 ==> IsDigit(line[i]))
    && HexValue(line[..8]) == Some(SumOfBits(crc, 32))
  }

  lemma SumLine(name: string, contents: seq<bv8>)
    ensures IsSumLine(PrintLine(Entry(Number(Hash(contents)), name)), CrcOf(contents), name)
  {
    hide Hash, CrcOf, Number, SumOfBits, Hex, HexValue;
    var n := Number(Hash(contents));
    NumberIsPositional(Hash(contents));
    HashIsRfc1952(contents);
    Pow16Eight();
    HexValueOfHex(n, 8);
    var line := PrintLine(Entry(n, name));
    assert line[..8] == Hex(n, 8) && line[8..] == " " + name + "\n";
    forall i | 0 <= i < 8 ensures IsDigit(line[i]) { assert line[i] == Hex(n, 8)[i]; }
  }

  lemma {:induction false} PrintedLineAt(es: seq<Entry>, k: nat)
    requires k < |es|
    ensures k < |PrintedLines(es)| && PrintedLines(es)[k] == PrintLine(es[k])
  {
    hide PrintLine;
    if |es| > 1 { PrintedLineAt(es[1..], if k > 0 then k - 1 else 0); }
  }

  /**
    crc32sum prints, for every readable file in order and for no other, a line that starts with
    eight hexadecimal digits whose value is the RFC 1952 CRC of its contents, bit by bit.
   */
  lemma SumsAreCrcs(names: seq<string>, disk: Disk)
    requires forall name :: name in names ==> GoodName(name)
    ensures var r, lines := Readable(names, disk), Lines(PrintAll(Summed(names, FilesOf(disk))));
      |lines| == |r| && forall k :: 0 <= k < |r| ==> IsSumLine(lines[k], CrcOf(disk(r[k]).bytes), r[k])
  {
    hide Hash, Number, Lines, PrintAll, Summed, PrintLine, IsSumLine, GoodName, CrcOf, PrintedLines, Readable;
    var es, r := Summed(names, FilesOf(disk)), Readable(names, disk);
    SummedEntries(names, disk);
    LinesOfPrint(es);
    PrintedLength(es);
    var lines := Lines(PrintAll(es));
    forall k | 0 <= k < |r|
      ensures IsSumLine(lines[k], CrcOf(disk(r[k]).bytes), r[k])
    {
      PrintedLineAt(es, k);
      SumLine(r[k], disk(r[k]).bytes);
    }
  }

  lemma {:induction false} PrintedLength(es: seq<Entry>)
    ensures |PrintedLines(es)| == |es|
  {
    if es != [] { PrintedLength(es[1..]); }
  }

  /** crc32check says OK exactly for a file that can be read and has the recorded CRC. */
  lemma OkExactly(e: Entry, disk: Disk)
    ensures Judge(e, FilesOf(disk)(e.name)) == Ok
            <==> disk(e.name).Bytes? && e.hash == SumOfBits(CrcOf(disk(e.name).bytes), 32)
    ensures Judge(e, FilesOf(disk)(e.name)) == CannotRead <==> !disk(e.name).Bytes?
  {
    hide Hash, Number, SumOfBits, CrcOf;
    assert FilesOf(disk)(e.name) == StateOf(disk(e.name));
    if disk(e.name).Bytes? {
      HashIsRfc1952(disk(e.name).bytes);
      NumberIsPositional(Hash(disk(e.name).bytes));
    }
  }
}
