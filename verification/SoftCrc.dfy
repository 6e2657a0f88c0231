/** The software CRC driver: a loop over a 256-entry table for the two built-in configurations, and a
    bit-by-bit division for any polynomial. The two are proved to agree, and the CRC-32 one to be
    the littlefs checksum with its complements.
 */
module SoftCrc {
  import opened Remainders

  /** The 256 entries, sixteen to a row. */
  type Table = seq<seq<bv32>>

  predicate IsTable(t: Table) {
    |t| == 16 && forall i :: 0 <= i < 16 ==> |t[i]| == 16
  }

  const CRC32_TABLE: Table := [
    [0x00000000, 0x77073096, 0xee0e612c, 0x990951ba, 0x076dc419, 0x706af48f, 0xe963a535, 0x9e6495a3,
     0x0edb8832, 0x79dcb8a4, 0xe0d5e91e, 0x97d2d988, 0x09b64c2b, 0x7eb17cbd, 0xe7b82d07, 0x90bf1d91],
    [0x1db71064, 0x6ab020f2, 0xf3b97148, 0x84be41de, 0x1adad47d, 0x6ddde4eb, 0xf4d4b551, 0x83d385c7,
     0x136c9856, 0x646ba8c0, 0xfd62f97a, 0x8a65c9ec, 0x14015c4f, 0x63066cd9, 0xfa0f3d63, 0x8d080df5],
    [0x3b6e20c8, 0x4c69105e, 0xd56041e4, 0xa2677172, 0x3c03e4d1, 0x4b04d447, 0xd20d85fd, 0xa50ab56b,
     0x35b5a8fa, 0x42b2986c, 0xdbbbc9d6, 0xacbcf940, 0x32d86ce3, 0x45df5c75, 0xdcd60dcf, 0xabd13d59],
    [0x26d930ac, 0x51de003a, 0xc8d75180, 0xbfd06116, 0x21b4f4b5, 0x56b3c423, 0xcfba9599, 0xb8bda50f,
     0x2802b89e, 0x5f058808, 0xc60cd9b2, 0xb10be924, 0x2f6f7c87, 0x58684c11, 0xc1611dab, 0xb6662d3d],
    [0x76dc4190, 0x01db7106, 0x98d220bc, 0xefd5102a, 0x71b18589, 0x06b6b51f, 0x9fbfe4a5, 0xe8b8d433,
     0x7807c9a2, 0x0f00f934, 0x9609a88e, 0xe10e9818, 0x7f6a0dbb, 0x086d3d2d, 0x91646c97, 0xe6635c01],
    [0x6b6b51f4, 0x1c6c6162, 0x856530d8, 0xf262004e, 0x6c0695ed, 0x1b01a57b, 0x8208f4c1, 0xf50fc457,
     0x65b0d9c6, 0x12b7e950, 0x8bbeb8ea, 0xfcb9887c, 0x62dd1ddf, 0x15da2d49, 0x8cd37cf3, 0xfbd44c65],
    [0x4db26158, 0x3ab551ce, 0xa3bc0074, 0xd4bb30e2, 0x4adfa541, 0x3dd895d7, 0xa4d1c46d, 0xd3d6f4fb,
     0x4369e96a, 0x346ed9fc, 0xad678846, 0xda60b8d0, 0x44042d73, 0x33031de5, 0xaa0a4c5f, 0xdd0d7cc9],
    [0x5005713c, 0x270241aa, 0xbe0b1010, 0xc90c2086, 0x5768b525, 0x206f85b3, 0xb966d409, 0xce61e49f,
     0x5edef90e, 0x29d9c998, 0xb0d09822, 0xc7d7a8b4, 0x59b33d17, 0x2eb40d81, 0xb7bd5c3b, 0xc0ba6cad],
    [0xedb88320, 0x9abfb3b6, 0x03b6e20c, 0x74b1d29a, 0xead54739, 0x9dd277af, 0x04db2615, 0x73dc1683,
     0xe3630b12, 0x94643b84, 0x0d6d6a3e, 0x7a6a5aa8, 0xe40ecf0b, 0x9309ff9d, 0x0a00ae27, 0x7d079eb1],
    [0xf00f9344, 0x8708a3d2, 0x1e01f268, 0x6906c2fe, 0xf762575d, 0x806567cb, 0x196c3671, 0x6e6b06e7,
     0xfed41b76, 0x89d32be0, 0x10da7a5a, 0x67dd4acc, 0xf9b9df6f, 0x8ebeeff9, 0x17b7be43, 0x60b08ed5],
    [0xd6d6a3e8, 0xa1d1937e, 0x38d8c2c4, 0x4fdff252, 0xd1bb67f1, 0xa6bc5767, 0x3fb506dd, 0x48b2364b,
     0xd80d2bda, 0xaf0a1b4c, 0x36034af6, 0x41047a60, 0xdf60efc3, 0xa867df55, 0x316e8eef, 0x4669be79],
    [0xcb61b38c, 0xbc66831a, 0x256fd2a0, 0x5268e236, 0xcc0c7795, 0xbb0b4703, 0x220216b9, 0x5505262f,
     0xc5ba3bbe, 0xb2bd0b28, 0x2bb45a92, 0x5cb36a04, 0xc2d7ffa7, 0xb5d0cf31, 0x2cd99e8b, 0x5bdeae1d],
    [0x9b64c2b0, 0xec63f226, 0x756aa39c, 0x026d930a, 0x9c0906a9, 0xeb0e363f, 0x72076785, 0x05005713,
     0x95bf4a82, 0xe2b87a14, 0x7bb12bae, 0x0cb61b38, 0x92d28e9b, 0xe5d5be0d, 0x7cdcefb7, 0x0bdbdf21],
    [0x86d3d2d4, 0xf1d4e242, 0x68ddb3f8, 0x1fda836e, 0x81be16cd, 0xf6b9265b, 0x6fb077e1, 0x18b74777,
     0x88085ae6, 0xff0f6a70, 0x66063bca, 0x11010b5c, 0x8f659eff, 0xf862ae69, 0x616bffd3, 0x166ccf45],
    [0xa00ae278, 0xd70dd2ee, 0x4e048354, 0x3903b3c2, 0xa7672661, 0xd06016f7, 0x4969474d, 0x3e6e77db,
     0xaed16a4a, 0xd9d65adc, 0x40df0b66, 0x37d83bf0, 0xa9bcae53, 0xdebb9ec5, 0x47b2cf7f, 0x30b5ffe9],
    [0xbdbdf21c, 0xcabac28a, 0x53b39330, 0x24b4a3a6, 0xbad03605, 0xcdd70693, 0x54de5729, 0x23d967bf,
     0xb3667a2e, 0xc4614ab8, 0x5d681b02, 0x2a6f2b94, 0xb40bbe37, 0xc30c8ea1, 0x5a05df1b, 0x2d02ef8d]
  ]

  const CRC16_TABLE: Table := [
    [0x0000, 0xc0c1, 0xc181, 0x0140, 0xc301, 0x03c0, 0x0280, 0xc241,
     0xc601, 0x06c0, 0x0780, 0xc741, 0x0500, 0xc5c1, 0xc481, 0x0440],
    [0xcc01, 0x0cc0, 0x0d80, 0xcd41, 0x0f00, 0xcfc1, 0xce81, 0x0e40,
     0x0a00, 0xcac1, 0xcb81, 0x0b40, 0xc901, 0x09c0, 0x0880, 0xc841],
    [0xd801, 0x18c0, 0x1980, 0xd941, 0x1b00, 0xdbc1, 0xda81, 0x1a40,
     0x1e00, 0xdec1, 0xdf81, 0x1f40, 0xdd01, 0x1dc0, 0x1c80, 0xdc41],
    [0x1400, 0xd4c1, 0xd581, 0x1540, 0xd701, 0x17c0, 0x1680, 0xd641,
     0xd201, 0x12c0, 0x1380, 0xd341, 0x1100, 0xd1c1, 0xd081, 0x1040],
    [0xf001, 0x30c0, 0x3180, 0xf141, 0x3300, 0xf3c1, 0xf281, 0x3240,
     0x3600, 0xf6c1, 0xf781, 0x3740, 0xf501, 0x35c0, 0x3480, 0xf441],
    [0x3c00, 0xfcc1, 0xfd81, 0x3d40, 0xff01, 0x3fc0, 0x3e80, 0xfe41,
     0xfa01, 0x3ac0, 0x3b80, 0xfb41, 0x3900, 0xf9c1, 0xf881, 0x3840],
    [0x2800, 0xe8c1, 0xe981, 0x2940, 0xeb01, 0x2bc0, 0x2a80, 0xea41,
     0xee01, 0x2ec0, 0x2f80, 0xef41, 0x2d00, 0xedc1, 0xec81, 0x2c40],
    [0xe401, 0x24c0, 0x2580, 0xe541, 0x2700, 0xe7c1, 0xe681, 0x2640,
     0x2200, 0xe2c1, 0xe381, 0x2340, 0xe101, 0x21c0, 0x2080, 0xe041],
    [0xa001, 0x60c0, 0x6180, 0xa141, 0x6300, 0xa3c1, 0xa281, 0x6240,
     0x6600, 0xa6c1, 0xa781, 0x6740, 0xa501, 0x65c0, 0x6480, 0xa441],
    [0x6c00, 0xacc1, 0xad81, 0x6d40, 0xaf01, 0x6fc0, 0x6e80, 0xae41,
     0xaa01, 0x6ac0, 0x6b80, 0xab41, 0x6900, 0xa9c1, 0xa881, 0x6840],
    [0x7800, 0xb8c1, 0xb981, 0x7940, 0xbb01, 0x7bc0, 0x7a80, 0xba41,
     0xbe01, 0x7ec0, 0x7f80, 0xbf41, 0x7d00, 0xbdc1, 0xbc81, 0x7c40],
    [0xb401, 0x74c0, 0x7580, 0xb541, 0x7700, 0xb7c1, 0xb681, 0x7640,
     0x7200, 0xb2c1, 0xb381, 0x7340, 0xb101, 0x71c0, 0x7080, 0xb041],
    [0x5000, 0x90c1, 0x9181, 0x5140, 0x9301, 0x53c0, 0x5280, 0x9241,
     0x9601, 0x56c0, 0x5780, 0x9741, 0x5500, 0x95c1, 0x9481, 0x5440],
    [0x9c01, 0x5cc0, 0x5d80, 0x9d41, 0x5f00, 0x9fc1, 0x9e81, 0x5e40,
     0x5a00, 0x9ac1, 0x9b81, 0x5b40, 0x9901, 0x59c0, 0x5880, 0x9841],
    [0x8801, 0x48c0, 0x4980, 0x8941, 0x4b00, 0x8bc1, 0x8a81, 0x4a40,
     0x4e00, 0x8ec1, 0x8f81, 0x4f40, 0x8d01, 0x4dc0, 0x4c80, 0x8c41],
    [0x4400, 0x84c1, 0x8581, 0x4540, 0x8701, 0x47c0, 0x4680, 0x8641,
     0x8201, 0x42c0, 0x4380, 0x8341, 0x4100, 0x81c1, 0x8081, 0x4040]
  ]

  /** No table means the bits are divided one at a time. */
  datatype Config = Config(polySize: bv32, poly: bv32, initialVal: bv32, finalVal: bv32,
                           reflectData: bool, reflectRemainder: bool, table: Table)
  {
    predicate Ok() {
      8 <= polySize <= 32 && (table == [] || IsTable(table))
    }
  }

  const CRC32 := Config(32, 0x04c11db7, 0xffffffff, 0xffffffff, true, true, CRC32_TABLE)
  const CRC16 := Config(16, 0x8005, 0, 0, true, true, CRC16_TABLE)

  function Or(a: bv32, b: bv32): bv32 {
    a | b
  }

  /** The lowest bit of `d`, moved to place `k`. */
  function Placed(d: bv32, k: bv32): bv32
    requires k < 32
  {
    (d & 1) << k
  }

  /** The lowest `n` bits in reverse. */
  function Reflected(data: bv32, n: bv32): bv32
    requires n <= 32
    decreases n
  {
    if n == 0 then 0 else Or(Placed(data, n - 1), Reflected(Half(data), n - 1))
  }

  function WithBit(r: bv32, d: bv32, k: bv32): bv32
    requires k < 32
  {
    if d & 1 != 0 then r | (1 << k) else r
  }

  method Reflect(data: bv32, n: bv32) returns (r: bv32)
    requires n <= 32
    ensures r == Reflected(data, n)
  {
    hide WithBit, Placed, Half, Or;
    r := 0;
    var d := data;
    OrZero(Reflected(data, n));
    var bit: bv32 := 0;
    while bit < n
      invariant bit <= n
      invariant Or(r, Reflected(d, n - bit)) == Reflected(data, n)
      decreases n - bit
    {
      PlaceBit(r, d, n - 1 - bit, Reflected(Half(d), n - 1 - bit));
      r := WithBit(r, d, n - 1 - bit);
      d := Half(d);
      bit := bit + 1;
    }
    OrZero(r);
  }

  lemma OrZero(a: bv32)
    ensures Or(0, a) == a && Or(a, 0) == a
  {
  }

  lemma OrAssoc(a: bv32, b: bv32, c: bv32)
    ensures Or(Or(a, b), c) == Or(a, Or(b, c))
  {
  }

  lemma WithBitOr(r: bv32, d: bv32, k: bv32)
    requires k < 32
    ensures WithBit(r, d, k) == Or(r, Placed(d, k))
  {
    if d & 1 != 0 {
      assert d & 1 == 1;
    } else {
      assert Placed(d, k) == 0;
      OrZero(r);
    }
  }

  lemma PlaceBit(r: bv32, d: bv32, k: bv32, rest: bv32)
    requires k < 32
    ensures Or(WithBit(r, d, k), rest) == Or(r, Or(Placed(d, k), rest))
  {
    hide Or, WithBit, Placed;
    OrAssoc(r, Placed(d, k), rest);
    WithBitOr(r, d, k);
  }

  /** The bit that decides the next division step. */
  predicate TopBit(c: bv32, size: bv32)
    requires 0 < size <= 32
  {
    c & (1 << (size - 1)) != 0
  }

  function Double(c: bv32): bv32 {
    c << 1
  }

  /** One step of the modulo-2 division. */
  function Divide(c: bv32, size: bv32, poly: bv32): bv32
    requires 0 < size <= 32
  {
    if TopBit(c, size) then X(Double(c), poly) else Double(c)
  }

  function Divides(c: bv32, size: bv32, poly: bv32, n: nat): bv32
    requires 0 < size <= 32
  {
    if n == 0 then c else Divide(Divides(c, size, poly, n - 1), size, poly)
  }

  /** A byte at the upper end of a remainder. */
  function Up(d: bv32, size: bv32): bv32
    requires 8 <= size <= 32
  {
    d << (size - 8)
  }

  /** Bring the next byte into the remainder. */
  function BringIn(cfg: Config, c: bv32, b: bv8): bv32
    requires cfg.Ok()
  {
    var d := if cfg.reflectData then Reflected(b as bv32, 8) else b as bv32;
    Divides(X(c, Up(d, cfg.polySize)), cfg.polySize, cfg.poly, 8)
  }

  function Entry(t: Table, idx: bv32): bv32
    requires IsTable(t)
  {
    t[((idx >> 4) & 0xf) as int][(idx & 0xf) as int]
  }

  function LookUp(t: Table, c: bv32, b: bv8): bv32
    requires IsTable(t)
  {
    X(Entry(t, X(c, b as bv32) & 0xff), c >> 8)
  }

  function Next(cfg: Config, c: bv32, b: bv8): bv32
    requires cfg.Ok()
  {
    if cfg.table != [] then LookUp(cfg.table, c, b) else BringIn(cfg, c, b)
  }

  function Run(cfg: Config, c: bv32, data: seq<bv8>): bv32
    requires cfg.Ok()
  {
    if data == [] then c else Next(cfg, Run(cfg, c, data[..|data| - 1]), data[|data| - 1])
  }

  /** Apply the final value and mask to the width of the polynomial. */
  function Finish(c: bv32, finalVal: bv32, size: bv32): bv32
    requires 0 < size <= 32
  {
    var m: bv32 := 1 << (size - 1);
    (c ^ finalVal) & (m | (m - 1))
  }

  function Output(cfg: Config, c: bv32): bv32
    requires cfg.Ok()
  {
    Finish(if cfg.table == [] && cfg.reflectRemainder then Reflected(c, cfg.polySize) else c, cfg.finalVal,
           cfg.polySize)
  }

  class Driver {
    const config: Config
    var crc: bv32

    constructor (config: Config)
      requires config.Ok()
      ensures this.config == config && crc == config.initialVal
    {
      this.config := config;
      this.crc := config.initialVal;
    }

    method Reset()
      modifies this
      ensures crc == config.initialVal
    {
      crc := config.initialVal;
    }

    method Calc(data: seq<bv8>) returns (r: bv32)
      requires config.Ok()
      modifies this
      ensures crc == Run(config, old(crc), data) && r == Output(config, crc)
    {
      hide Run, Reflected, Finish;
      if config.table != [] {
        crc := RunTable(config, crc, data);
        r := crc;
      } else {
        crc := RunBits(config, crc, data);
        r := crc;
        if config.reflectRemainder {
          r := Reflect(r, config.polySize);
        }
      }
      r := Finish(r, config.finalVal, config.polySize);
    }
  }

  method RunTable(cfg: Config, c: bv32, data: seq<bv8>) returns (r: bv32)
    requires cfg.Ok() && cfg.table != []
    ensures r == Run(cfg, c, data)
  {
    hide LookUp, IsTable;
    r := c;
    for i := 0 to |data|
      invariant r == Run(cfg, c, data[..i])
    {
      assert data[..i + 1][..i] == data[..i];
      r := LookUp(cfg.table, r, data[i]);
    }
    assert data[..|data|] == data;
  }

  method RunBits(cfg: Config, c: bv32, data: seq<bv8>) returns (r: bv32)
    requires cfg.Ok() && cfg.table == []
    ensures r == Run(cfg, c, data)
  {
    hide Divides, Reflected, Up, X;
    r := c;
    for i := 0 to |data|
      invariant r == Run(cfg, c, data[..i])
    {
      assert data[..i + 1][..i] == data[..i];
      var d := data[i] as bv32;
      if cfg.reflectData {
        d := Reflect(d, 8);
      }
      r := DivideBits(X(r, Up(d, cfg.polySize)), cfg.polySize, cfg.poly);
    }
    assert data[..|data|] == data;
  }

  method DivideBits(c: bv32, size: bv32, poly: bv32) returns (r: bv32)
    requires 0 < size <= 32
    ensures r == Divides(c, size, poly, 8)
  {
    hide Divide;
    r := c;
    for bit := 0 to 8
      invariant r == Divides(c, size, poly, bit)
    {
      r := Divide(r, size, poly);
    }
  }

  // ----- the two built-in configurations

  /** The entry of a sum of bits is the sum of their entries, within the first row or column. */
  predicate Spanned(s: seq<bv32>) {
    && |s| == 16 && s[0] == 0
    && s[3] == X(s[2], s[1]) && s[5] == X(s[4], s[1]) && s[6] == X(s[4], s[2]) && s[7] == X(s[4], s[3])
    && s[9] == X(s[8], s[1]) && s[10] == X(s[8], s[2]) && s[11] == X(s[8], s[3]) && s[12] == X(s[8], s[4])
    && s[13] == X(s[8], s[5]) && s[14] == X(s[8], s[6]) && s[15] == X(s[8], s[7])
  }

  predicate Coset(row: seq<bv32>, first: seq<bv32>) {
    && |row| == |first| == 16
    && row[0] == X(row[0], first[0]) && row[1] == X(row[0], first[1]) && row[2] == X(row[0], first[2]) &&
       row[3] == X(row[0], first[3])
    && row[4] == X(row[0], first[4]) && row[5] == X(row[0], first[5]) && row[6] == X(row[0], first[6]) &&
       row[7] == X(row[0], first[7])
    && row[8] == X(row[0], first[8]) && row[9] == X(row[0], first[9]) && row[10] == X(row[0], first[10]) &&
       row[11] == X(row[0], first[11])
    && row[12] == X(row[0], first[12]) && row[13] == X(row[0], first[13]) && row[14] == X(row[0], first[14]) &&
       row[15] == X(row[0], first[15])
  }

  function Column(t: Table): seq<bv32>
    requires IsTable(t)
  {
    seq(16, i requires 0 <= i < 16 => t[i][0])
  }

  predicate Basis(s: seq<bv32>, unit: bv32, poly: bv32) {
    && |s| == 16
    && s[1] == Steps8(unit, poly) && s[2] == Steps8(unit << 1, poly)
    && s[4] == Steps8(unit << 2, poly) && s[8] == Steps8(unit << 3, poly)
  }

  predicate Linear(t: Table, poly: bv32) {
    && IsTable(t)
    && Spanned(t[0]) && Basis(t[0], 1, poly)
    && Spanned(Column(t)) && Basis(Column(t), 16, poly)
    && (forall k :: 0 <= k < 16 ==> Coset(t[k], t[0]))
  }

  lemma Spans32()
    ensures IsTable(CRC32_TABLE) && Spanned(CRC32_TABLE[0]) && Spanned(Column(CRC32_TABLE))
  {
  }

  lemma Bases32()
    ensures IsTable(CRC32_TABLE) && Basis(CRC32_TABLE[0], 1, POLY32) && Basis(Column(CRC32_TABLE), 16, POLY32)
  {
  }

  lemma LinearFrom(t: Table, poly: bv32)
    requires IsTable(t) && Spanned(t[0]) && Spanned(Column(t)) && Basis(t[0], 1, poly) && Basis(Column(t), 16, poly)
    requires Coset(t[0], t[0]) && Coset(t[1], t[0]) && Coset(t[2], t[0]) && Coset(t[3], t[0])
    requires Coset(t[4], t[0]) && Coset(t[5], t[0]) && Coset(t[6], t[0]) && Coset(t[7], t[0])
    requires Coset(t[8], t[0]) && Coset(t[9], t[0]) && Coset(t[10], t[0]) && Coset(t[11], t[0])
    requires Coset(t[12], t[0]) && Coset(t[13], t[0]) && Coset(t[14], t[0]) && Coset(t[15], t[0])
    ensures Linear(t, poly)
  {
    hide Spanned, Basis, Coset, Column;
  }

  lemma Cosets32A()
    ensures Coset(CRC32_TABLE[0], CRC32_TABLE[0])
    ensures Coset(CRC32_TABLE[1], CRC32_TABLE[0])
    ensures Coset(CRC32_TABLE[2], CRC32_TABLE[0])
    ensures Coset(CRC32_TABLE[3], CRC32_TABLE[0])
  {
  }

  lemma Cosets32B()
    ensures Coset(CRC32_TABLE[4], CRC32_TABLE[0])
    ensures Coset(CRC32_TABLE[5], CRC32_TABLE[0])
    ensures Coset(CRC32_TABLE[6], CRC32_TABLE[0])
    ensures Coset(CRC32_TABLE[7], CRC32_TABLE[0])
  {
  }

  lemma Cosets32C()
    ensures Coset(CRC32_TABLE[8], CRC32_TABLE[0])
    ensures Coset(CRC32_TABLE[9], CRC32_TABLE[0])
    ensures Coset(CRC32_TABLE[10], CRC32_TABLE[0])
    ensures Coset(CRC32_TABLE[11], CRC32_TABLE[0])
  {
  }

  lemma Cosets32D()
    ensures Coset(CRC32_TABLE[12], CRC32_TABLE[0])
    ensures Coset(CRC32_TABLE[13], CRC32_TABLE[0])
    ensures Coset(CRC32_TABLE[14], CRC32_TABLE[0])
    ensures Coset(CRC32_TABLE[15], CRC32_TABLE[0])
  {
  }

  lemma Linear32()
    ensures Linear(CRC32_TABLE, POLY32)
  {
    hide Spanned, Basis, Coset, Column, IsTable, Linear, CRC32_TABLE;
    Spans32();
    Bases32();
    Cosets32A();
    Cosets32B();
    Cosets32C();
    Cosets32D();
    LinearFrom(CRC32_TABLE, POLY32);
  }

  lemma Spans16()
    ensures IsTable(CRC16_TABLE) && Spanned(CRC16_TABLE[0]) && Spanned(Column(CRC16_TABLE))
  {
  }

  lemma Bases16()
    ensures IsTable(CRC16_TABLE) && Basis(CRC16_TABLE[0], 1, POLY16) && Basis(Column(CRC16_TABLE), 16, POLY16)
  {
  }

  lemma Cosets16A()
    ensures Coset(CRC16_TABLE[0], CRC16_TABLE[0])
    ensures Coset(CRC16_TABLE[1], CRC16_TABLE[0])
    ensures Coset(CRC16_TABLE[2], CRC16_TABLE[0])
    ensures Coset(CRC16_TABLE[3], CRC16_TABLE[0])
  {
  }

  lemma Cosets16B()
    ensures Coset(CRC16_TABLE[4], CRC16_TABLE[0])
    ensures Coset(CRC16_TABLE[5], CRC16_TABLE[0])
    ensures Coset(CRC16_TABLE[6], CRC16_TABLE[0])
    ensures Coset(CRC16_TABLE[7], CRC16_TABLE[0])
  {
  }

  lemma Cosets16C()
    ensures Coset(CRC16_TABLE[8], CRC16_TABLE[0])
    ensures Coset(CRC16_TABLE[9], CRC16_TABLE[0])
    ensures Coset(CRC16_TABLE[10], CRC16_TABLE[0])
    ensures Coset(CRC16_TABLE[11], CRC16_TABLE[0])
  {
  }

  lemma Cosets16D()
    ensures Coset(CRC16_TABLE[12], CRC16_TABLE[0])
    ensures Coset(CRC16_TABLE[13], CRC16_TABLE[0])
    ensures Coset(CRC16_TABLE[14], CRC16_TABLE[0])
    ensures Coset(CRC16_TABLE[15], CRC16_TABLE[0])
  {
  }

  lemma Linear16()
    ensures Linear(CRC16_TABLE, POLY16)
  {
    hide Spanned, Basis, Coset, Column, IsTable, Linear, CRC16_TABLE;
    Spans16();
    Bases16();
    Cosets16A();
    Cosets16B();
    Cosets16C();
    Cosets16D();
    LinearFrom(CRC16_TABLE, POLY16);
  }


  /** `v` if `x` has the bit. */
  function Pick(x: bv32, bit: bv32, v: bv32): bv32 {
    if x & bit == 0 then 0 else v
  }

  function Picks(x: bv32, v1: bv32, v2: bv32, v4: bv32, v8: bv32): bv32 {
    X(Pick(x, 8, v8), X(Pick(x, 4, v4), X(Pick(x, 2, v2), Pick(x, 1, v1))))
  }

  lemma StepsPick(x: bv32, bit: bv32, v: bv32, poly: bv32)
    ensures Steps8(Pick(x, bit, v), poly) == Pick(x, bit, Steps8(v, poly))
  {
    hide Steps8;
    Steps8Linear(0, 0, poly);
  }

  lemma StepsPicks(x: bv32, v1: bv32, v2: bv32, v4: bv32, v8: bv32, poly: bv32)
    ensures Steps8(Picks(x, v1, v2, v4, v8), poly) ==
            Picks(x, Steps8(v1, poly), Steps8(v2, poly), Steps8(v4, poly), Steps8(v8, poly))
  {
    hide Steps8, Pick, X;
    StepsPick(x, 1, v1, poly);
    StepsPick(x, 2, v2, poly);
    StepsPick(x, 4, v4, poly);
    StepsPick(x, 8, v8, poly);
    var p := X(Pick(x, 2, v2), Pick(x, 1, v1));
    Steps8Linear(Pick(x, 2, v2), Pick(x, 1, v1), poly);
    Steps8Linear(Pick(x, 4, v4), p, poly);
    Steps8Linear(Pick(x, 8, v8), X(Pick(x, 4, v4), p), poly);
  }

  lemma SpanAt(s: seq<bv32>, x: bv32)
    requires Spanned(s) && x <= 0xf
    ensures s[x as int] == Picks(x, s[1], s[2], s[4], s[8])
  {
    hide X;
    XZero(0);
    XZero(s[1]);
    XZero(s[2]);
    XZero(s[4]);
    XZero(s[8]);
    XZero(s[3]);
    XZero(s[5]);
    XZero(s[6]);
    XZero(s[7]);
    if x == 0 {
    } else if x == 1 {
    } else if x == 2 {
    } else if x == 3 {
    } else if x == 4 {
    } else if x == 5 {
    } else if x == 6 {
    } else if x == 7 {
    } else if x == 8 {
    } else if x == 9 {
    } else if x == 10 {
    } else if x == 11 {
    } else if x == 12 {
    } else if x == 13 {
    } else if x == 14 {
    } else {
      assert x == 15;
    }
  }

  lemma CosetAt(row: seq<bv32>, first: seq<bv32>, x: bv32)
    requires Coset(row, first) && x <= 0xf
    ensures row[x as int] == X(row[0], first[x as int])
  {
    hide X;
    if x == 0 {
    } else if x == 1 {
    } else if x == 2 {
    } else if x == 3 {
    } else if x == 4 {
    } else if x == 5 {
    } else if x == 6 {
    } else if x == 7 {
    } else if x == 8 {
    } else if x == 9 {
    } else if x == 10 {
    } else if x == 11 {
    } else if x == 12 {
    } else if x == 13 {
    } else if x == 14 {
    } else {
      assert x == 15;
    }
  }

  lemma JoinNibbles(x: bv32)
    requires x <= 0xff
    ensures X(Picks((x >> 4) & 0xf, 0x10, 0x20, 0x40, 0x80), Picks(x & 0xf, 1, 2, 4, 8)) == x
  {
  }

  lemma BasisAt(s: seq<bv32>, unit: bv32, poly: bv32, x: bv32)
    requires Spanned(s) && Basis(s, unit, poly) && x <= 0xf
    ensures s[x as int] == Steps8(Picks(x, unit, unit << 1, unit << 2, unit << 3), poly)
  {
    hide Picks, Steps8;
    SpanAt(s, x);
    StepsPicks(x, unit, unit << 1, unit << 2, unit << 3, poly);
  }

  lemma EntryIs(t: Table, poly: bv32, x: bv32)
    requires Linear(t, poly) && x <= 0xff
    ensures Entry(t, x) == Steps8(x, poly)
  {
    hide Picks, Steps8, X, Spanned, Basis, Coset;
    var hi, lo := (x >> 4) & 0xf, x & 0xf;
    CosetAt(t[hi as int], t[0], lo);
    BasisAt(t[0], 1, poly, lo);
    BasisAt(Column(t), 16, poly, hi);
    Steps8Linear(Picks(hi, 16, 16 << 1, 16 << 2, 16 << 3), Picks(lo, 1, 1 << 1, 1 << 2, 1 << 3), poly);
    JoinNibbles(x);
  }

  lemma LowByte(c: bv32, b: bv8)
    ensures X(c, b as bv32) >> 8 == c >> 8
  {
  }

  /** One table look-up is eight steps of the reflected division. */
  lemma LookUpIs(t: Table, poly: bv32, c: bv32, b: bv8)
    requires Linear(t, poly)
    ensures LookUp(t, c, b) == Steps8(X(c, b as bv32), poly)
  {
    hide X, Steps8, Linear, Entry, IsTable;
    LinearTable(t, poly);
    var x := X(c, b as bv32);
    EntryIs(t, poly, x & 0xff);
    SplitLow(x);
    Steps8Linear(x & 0xffffff00, x & 0xff, poly);
    ShiftOut(x, poly);
    LowByte(c, b);
    XComm(x >> 8, Steps8(x & 0xff, poly));
  }

  lemma LinearTable(t: Table, poly: bv32)
    requires Linear(t, poly)
    ensures IsTable(t)
  {
  }

  /** The reflected definition: bytes enter at the low end and the remainder shifts down. */
  function Residues(poly: bv32, c: bv32, data: seq<bv8>): bv32 {
    if data == [] then c else Steps8(X(Residues(poly, c, data[..|data| - 1]), data[|data| - 1] as bv32), poly)
  }

  lemma {:induction false} TableRuns(cfg: Config, poly: bv32, c: bv32, data: seq<bv8>)
    requires cfg.Ok() && Linear(cfg.table, poly)
    ensures Run(cfg, c, data) == Residues(poly, c, data)
  {
    hide Linear, Steps8, X, LookUp, IsTable;
    LinearTable(cfg.table, poly);
    if data != [] {
      TableRuns(cfg, poly, c, data[..|data| - 1]);
      LookUpIs(cfg.table, poly, Run(cfg, c, data[..|data| - 1]), data[|data| - 1]);
    }
  }
}
