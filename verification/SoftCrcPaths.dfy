/** Reflecting the bit-by-bit division of the software CRC turns it into the reflected definition, at
    every width. So the table path and the bit path give one result.
 */
module SoftCrcPaths {
  import Crc
  import opened Remainders
  import opened SoftCrc

  // ----- reversal of a whole word

  /** Swap neighbours, pairs, nibbles, bytes and halves. */
  function Rev32(d: bv32): bv32 {
    var a := ((d >> 1) & 0x5555_5555) | ((d & 0x5555_5555) << 1);
    var b := ((a >> 2) & 0x3333_3333) | ((a & 0x3333_3333) << 2);
    var c := ((b >> 4) & 0x0f0f_0f0f) | ((b & 0x0f0f_0f0f) << 4);
    var e := ((c >> 8) & 0x00ff_00ff) | ((c & 0x00ff_00ff) << 8);
    (e >> 16) | (e << 16)
  }

  lemma RevShifted(c: bv32)
    ensures Rev32(c << 1) == Rev32(c) >> 1
  {
  }

  lemma RevDouble(c: bv32)
    ensures Rev32(Double(c)) == Half(Rev32(c))
  {
    hide Rev32;
    RevShifted(c);
  }

  lemma RevX(a: bv32, b: bv32)
    ensures Rev32(X(a, b)) == X(Rev32(a), Rev32(b))
  {
  }

  lemma RevOdd(c: bv32)
    ensures Odd(Rev32(c)) <==> c & 0x8000_0000 != 0
  {
  }

  lemma RevRev(c: bv32)
    ensures Rev32(Rev32(c)) == c
  {
  }

  lemma RevHalf(d: bv32)
    ensures Rev32(Half(d)) == Double(Rev32(d))
  {
    hide Rev32, Half, Double;
    var e := Rev32(d);
    RevRev(d);
    RevDouble(e);
    RevRev(Double(e));
  }

  lemma LowBit(e: bv32)
    ensures Rev32(e) & 1 == e >> 31
  {
  }

  lemma RevLow(d: bv32)
    ensures d & 1 == Rev32(d) >> 31
  {
    hide Rev32;
    RevRev(d);
    LowBit(Rev32(d));
  }

  /** Shifts by a variable distance, up and down. */
  function By(d: bv32, k: bv32): bv32
    requires k <= 32
  {
    d << k
  }

  function Down(d: bv32, k: bv32): bv32
    requires k <= 32
  {
    d >> k
  }

  lemma NoShift(d: bv32)
    ensures By(d, 0) == d && Down(d, 0) == d
  {
  }

  lemma ByMore(d: bv32, k: bv32)
    requires k < 32
    ensures By(d, k + 1) == Double(By(d, k))
  {
  }

  lemma DownMore(d: bv32, k: bv32)
    requires k < 32
    ensures Down(d, k + 1) == Half(Down(d, k))
  {
  }

  lemma DownHalf(d: bv32, k: bv32)
    requires k < 32
    ensures Half(Down(d, k)) == Down(Half(d), k)
  {
  }

  lemma {:induction false} RevBy(c: bv32, k: bv32)
    requires k <= 32
    ensures Rev32(By(c, k)) == Down(Rev32(c), k)
    decreases k
  {
    hide Rev32, By, Down, Double, Half;
    if k == 0 {
      NoShift(c);
      NoShift(Rev32(c));
    } else {
      RevBy(c, k - 1);
      ByMore(c, k - 1);
      DownMore(Rev32(c), k - 1);
      RevDouble(By(c, k - 1));
    }
  }

  // ----- reflection is reversal and a shift

  lemma TopShifts(r: bv32, d: bv32, n: bv32)
    requires 1 <= n <= 32 && d & 1 == r >> 31
    ensures Down(r, 32 - n) == Or(Placed(d, n - 1), Down(Double(r), 32 - (n - 1)))
  {
  }

  lemma {:induction false} ReflectedIs(d: bv32, n: bv32)
    requires n <= 32
    ensures Reflected(d, n) == Down(Rev32(d), 32 - n)
    decreases n
  {
    hide Rev32, Placed, Or, Half, Double, Down;
    if n == 0 {
      AllOut(Rev32(d));
    } else {
      ReflectedIs(Half(d), n - 1);
      RevHalf(d);
      RevLow(d);
      TopShifts(Rev32(d), d, n);
    }
  }

  lemma AllOut(r: bv32)
    ensures Down(r, 32) == 0
  {
  }

  /** Reflecting twice restores the bits of the width and drops the others. */
  lemma ReflectedTwice(d: bv32, n: bv32)
    requires 0 < n <= 32
    ensures Reflected(Reflected(d, n), n) == Down(By(d, 32 - n), 32 - n)
  {
    hide Rev32, Reflected, By, Down;
    ReflectedIs(d, n);
    ReflectedIs(Reflected(d, n), n);
    RevBy(d, 32 - n);
    RevRev(By(d, 32 - n));
  }

  // ----- one division step

  lemma TopBitUp(c: bv32, n: bv32)
    requires 0 < n <= 32
    ensures TopBit(c, n) <==> By(c, 32 - n) & 0x8000_0000 != 0
  {
  }

  lemma {:induction false} DownX(a: bv32, b: bv32, k: bv32)
    requires k <= 32
    ensures Down(X(a, b), k) == X(Down(a, k), Down(b, k))
    decreases k
  {
    hide Down, X, Half;
    if k == 0 {
      NoShift(a);
      NoShift(b);
      NoShift(X(a, b));
    } else {
      DownX(a, b, k - 1);
      DownMore(a, k - 1);
      DownMore(b, k - 1);
      DownMore(X(a, b), k - 1);
      XHalf(Down(a, k - 1), Down(b, k - 1));
    }
  }

  lemma DivideReflected(c: bv32, n: bv32, poly: bv32)
    requires 0 < n <= 32
    ensures Reflected(Divide(c, n, poly), n) == BitStep(Reflected(c, n), Reflected(poly, n))
  {
    hide Rev32, Reflected, By, Down, X, TopBit, Odd, Double, Half;
    var k := 32 - n;
    ReflectedIs(c, n);
    ReflectedIs(poly, n);
    ReflectedIs(Divide(c, n, poly), n);
    RevDouble(c);
    RevX(Double(c), poly);
    DownX(Half(Rev32(c)), Rev32(poly), k);
    DownHalf(Rev32(c), k);
    TopBitUp(c, n);
    RevOdd(By(c, k));
    RevBy(c, k);
  }

  lemma DividesReflected(c: bv32, n: bv32, poly: bv32)
    requires 0 < n <= 32
    ensures Reflected(Divides(c, n, poly, 8), n) == Steps8(Reflected(c, n), Reflected(poly, n))
  {
    hide Reflected, Divide, BitStep, Divides;
    FourMore(c, n, poly, 0);
    FourMore(c, n, poly, 4);
    NoneYet(c, n, poly);
  }

  lemma NoneYet(c: bv32, n: bv32, poly: bv32)
    requires 0 < n <= 32
    ensures Divides(c, n, poly, 0) == c
  {
  }

  lemma FourMore(c: bv32, n: bv32, poly: bv32, k: nat)
    requires 0 < n <= 32
    ensures Reflected(Divides(c, n, poly, k + 4), n) == Steps4(Reflected(Divides(c, n, poly, k), n), Reflected(poly, n))
  {
    hide Reflected, Divide, BitStep;
    var c0 := Divides(c, n, poly, k);
    var c1 := Divides(c, n, poly, k + 1);
    var c2 := Divides(c, n, poly, k + 2);
    var c3 := Divides(c, n, poly, k + 3);
    DivideReflected(c0, n, poly);
    DivideReflected(c1, n, poly);
    DivideReflected(c2, n, poly);
    DivideReflected(c3, n, poly);
  }

  // ----- one byte

  lemma {:induction false} DownDown(d: bv32, i: bv32, j: bv32)
    requires i <= 32 && j <= 32 && i + j <= 32
    ensures Down(Down(d, i), j) == Down(d, i + j)
    decreases j
  {
    hide Down, Half;
    if j == 0 {
      NoShift(Down(d, i));
    } else {
      DownDown(d, i, j - 1);
      DownMore(Down(d, i), j - 1);
      DownMore(d, i + (j - 1));
    }
  }

  lemma ByteBack(b: bv32, n: bv32)
    requires 8 <= n <= 32 && b <= 0xff
    ensures Down(Down(By(b, 24), n - 8), 32 - n) == b
  {
    ByteUp(b);
    hide Down, By;
    DownDown(By(b, 24), n - 8, 32 - n);
    assert (n - 8) + (32 - n) == 24;
  }

  lemma ByteUp(b: bv32)
    requires b <= 0xff
    ensures Down(By(b, 24), 24) == b
  {
  }

  lemma FeedReflected(c: bv32, b: bv32, n: bv32)
    requires 8 <= n <= 32 && b <= 0xff
    ensures Reflected(X(c, Up(Reflected(b, 8), n)), n) == X(Reflected(c, n), b)
  {
    hide Rev32, Reflected, By, Down, X, Up;
    var d := Reflected(b, 8);
    ReflectedIs(b, 8);
    RevBy(b, 24);
    RevRev(By(b, 24));
    UpIs(d, n);
    RevBy(d, n - 8);
    ByteBack(b, n);
    ReflectedIs(c, n);
    ReflectedIs(X(c, Up(d, n)), n);
    RevX(c, Up(d, n));
    DownX(Rev32(c), Rev32(Up(d, n)), 32 - n);
  }

  lemma UpIs(d: bv32, n: bv32)
    requires 8 <= n <= 32
    ensures Up(d, n) == By(d, n - 8)
  {
  }

  /** The bit path of any reflected configuration, of any polynomial and width. */
  lemma {:induction false} BitRuns(cfg: Config, c: bv32, data: seq<bv8>)
    requires cfg.Ok() && cfg.table == [] && cfg.reflectData
    ensures Reflected(Run(cfg, c, data), cfg.polySize) ==
            Residues(Reflected(cfg.poly, cfg.polySize), Reflected(c, cfg.polySize), data)
  {
    hide Reflected, Divides, Steps8, X, Up;
    if data != [] {
      var n, b := cfg.polySize, data[|data| - 1];
      var r := Run(cfg, c, data[..|data| - 1]);
      BitRuns(cfg, c, data[..|data| - 1]);
      ByteFits(b);
      FeedReflected(r, b as bv32, n);
      DividesReflected(X(r, Up(Reflected(b as bv32, 8), n)), n, cfg.poly);
    }
  }

  lemma ByteFits(b: bv8)
    ensures b as bv32 <= 0xff
  {
  }

  // ----- the two paths

  /** A table configuration without its table: the bits are divided one at a time. */
  function Untabled(cfg: Config): Config {
    cfg.(table := [])
  }

  predicate Reflecting(cfg: Config) {
    && cfg.Ok() && cfg.reflectData && cfg.reflectRemainder
    && Linear(cfg.table, Reflected(cfg.poly, cfg.polySize))
    && Reflected(cfg.initialVal, cfg.polySize) == cfg.initialVal
  }

  /** What one driver holds after a series of calls. */
  function Calls(cfg: Config, chunks: seq<seq<bv8>>): bv32
    requires cfg.Ok()
  {
    if chunks == [] then cfg.initialVal
    else Run(cfg, Calls(cfg, chunks[..|chunks| - 1]), chunks[|chunks| - 1])
  }

  function Joined(chunks: seq<seq<bv8>>): seq<bv8> {
    if chunks == [] then [] else Joined(chunks[..|chunks| - 1]) + chunks[|chunks| - 1]
  }

  lemma {:induction false} RunConcat(cfg: Config, c: bv32, x: seq<bv8>, y: seq<bv8>)
    requires cfg.Ok()
    ensures Run(cfg, c, x + y) == Run(cfg, Run(cfg, c, x), y)
  {
    hide Next;
    if y == [] {
      assert x + y == x;
    } else {
      assert (x + y)[..|x + y| - 1] == x + y[..|y| - 1];
      RunConcat(cfg, c, x, y[..|y| - 1]);
    }
  }

  lemma {:induction false} CallsJoined(cfg: Config, chunks: seq<seq<bv8>>)
    requires cfg.Ok()
    ensures Calls(cfg, chunks) == Run(cfg, cfg.initialVal, Joined(chunks))
  {
    hide Next;
    if chunks != [] {
      CallsJoined(cfg, chunks[..|chunks| - 1]);
      RunConcat(cfg, cfg.initialVal, Joined(chunks[..|chunks| - 1]), chunks[|chunks| - 1]);
    }
  }

  /** After any series of calls the two paths give the same checksum, and it depends only on the
      bytes, not on how they were cut.
   */
  lemma PathsAgree(cfg: Config, chunks: seq<seq<bv8>>, cuts: seq<seq<bv8>>)
    requires Reflecting(cfg) && Joined(chunks) == Joined(cuts)
    ensures Output(cfg, Calls(cfg, chunks)) == Output(Untabled(cfg), Calls(Untabled(cfg), cuts))
  {
    hide Linear, Reflected, Finish, Residues, Run, IsTable;
    var data, p := Joined(chunks), Reflected(cfg.poly, cfg.polySize);
    LinearTable(cfg.table, p);
    NotEmpty(cfg.table);
    CallsJoined(cfg, chunks);
    CallsJoined(Untabled(cfg), cuts);
    TableRuns(cfg, p, cfg.initialVal, data);
    BitRuns(Untabled(cfg), cfg.initialVal, data);
  }

  lemma NotEmpty(t: Table)
    requires IsTable(t)
    ensures t != []
  {
  }

  lemma BuiltIn()
    ensures Reflecting(CRC32) && Reflecting(CRC16)
  {
    hide Linear, Reflected, IsTable;
    Linear32();
    Linear16();
    LinearTable(CRC32_TABLE, POLY32);
    LinearTable(CRC16_TABLE, POLY16);
    ReflectedIs(CRC32.poly, 32);
    ReflectedIs(CRC16.poly, 16);
    ReflectedIs(CRC32.initialVal, 32);
    ReflectedIs(CRC16.initialVal, 16);
    Constants();
  }

  lemma Constants()
    ensures Down(Rev32(0x04c11db7), 0) == POLY32 && Down(Rev32(0x8005), 16) == POLY16
    ensures Down(Rev32(0xffff_ffff), 0) == 0xffff_ffff && Down(Rev32(0), 16) == 0
  {
  }

  // ----- and the checksum of the file system

  lemma {:induction false} SameChecksum(c: bv32, data: seq<bv8>)
    ensures Residues(POLY32, c, data) == Crc.Update(c, data)
  {
    hide Steps8, X;
    if data != [] {
      SameChecksum(c, data[..|data| - 1]);
    }
  }

  /** The driver's CRC-32 is the complement of the file system's checksum started from all ones. */
  lemma Crc32Is(chunks: seq<seq<bv8>>)
    ensures CRC32.Ok() && Output(CRC32, Calls(CRC32, chunks)) == !Crc.Update(0xffff_ffff, Joined(chunks))
  {
    hide Linear, Finish, Residues, Run, IsTable, Crc.Update;
    Linear32();
    LinearTable(CRC32_TABLE, POLY32);
    NotEmpty(CRC32_TABLE);
    var c := Crc.Update(0xffff_ffff, Joined(chunks));
    CallsJoined(CRC32, chunks);
    TableRuns(CRC32, POLY32, 0xffff_ffff, Joined(chunks));
    SameChecksum(0xffff_ffff, Joined(chunks));
    Complemented(c);
  }

  lemma Complemented(c: bv32)
    ensures Finish(c, 0xffff_ffff, 32) == !c
  {
  }
}
