/**
  The CRC-32C of checksum.c: the table-driven loop against the bit-serial register of RFC 4960,
  Appendix B. A step of the register is linear, eight steps feed one octet, the 256 table entries are
  sums of eight columns, and a column is what eight steps make of one bit. Two registers that differ
  stay different for as long as a burst can last. Arithmetic on words is stated one goal at a time
  with the words as parameters, so that each lemma is a single question about bit-vectors, and the
  steps that join them speak of names only.
 */
module Crc {

  // ----- The bit-serial definition

  /**
    One message bit enters the shift register. The Castagnoli polynomial, bits reflected, is added
    when the bit shifted out and the message bit differ.
   */
  function Feed(c: bv32, bit: bool): bv32 {
    if (c & 1 == 1) != bit then (c >> 1) ^ 0x82F63B78 else c >> 1
  }

  /** The register after a string of bits. */
  function Register(c: bv32, bits: seq<bool>): bv32 {
    if bits == [] then c else Feed(Register(c, bits[..|bits| - 1]), bits[|bits| - 1])
  }

  function Shr(w: bv32, n: nat): bv32 {
    if n == 0 then w else Shr(w, n - 1) >> 1
  }

  /** The n low bits of a word, least significant first. */
  function LowBits(w: bv32, n: nat): (r: seq<bool>)
    ensures |r| == n
  {
    if n == 0 then [] else LowBits(w, n - 1) + [Shr(w, n - 1) & 1 == 1]
  }

  const OCTET: nat := 8

  /** The bits of a message, octet by octet. */
  function Bits(m: seq<bv8>): (r: seq<bool>)
    ensures |r| == 8 * |m|
  {
    if m == [] then [] else Bits(m[..|m| - 1]) + LowBits(m[|m| - 1] as bv32, OCTET)
  }

  /** The CRC of a message: ones in the register, the message through it, complement. */
  function Crc(m: seq<bv8>): bv32 {
    !Register(0xFFFF_FFFF, Bits(m))
  }

  function Low(v: bv32): bv8 {
    (v & 0xFF) as bv8
  }

  /** Transmission order: least significant octet first. */
  function LeastFirst(v: bv32): (r: seq<bv8>)
    ensures |r| == 4
  {
    [Low(v), Low(v >> 8), Low(v >> 16), Low(v >> 24)]
  }

  // ----- The table

  function Row0(): (r: seq<bv32>)
    ensures |r| == 16
  {
    [0x00000000, 0xF26B8303, 0xE13B70F7, 0x1350F3F4, 0xC79A971F, 0x35F1141C, 0x26A1E7E8, 0xD4CA64EB,
     0x8AD958CF, 0x78B2DBCC, 0x6BE22838, 0x9989AB3B, 0x4D43CFD0, 0xBF284CD3, 0xAC78BF27, 0x5E133C24]
  }

  function Row1(): (r: seq<bv32>)
    ensures |r| == 16
  {
    [0x105EC76F, 0xE235446C, 0xF165B798, 0x030E349B, 0xD7C45070, 0x25AFD373, 0x36FF2087, 0xC494A384,
     0x9A879FA0, 0x68EC1CA3, 0x7BBCEF57, 0x89D76C54, 0x5D1D08BF, 0xAF768BBC, 0xBC267848, 0x4E4DFB4B]
  }

  function Row2(): (r: seq<bv32>)
    ensures |r| == 16
  {
    [0x20BD8EDE, 0xD2D60DDD, 0xC186FE29, 0x33ED7D2A, 0xE72719C1, 0x154C9AC2, 0x061C6936, 0xF477EA35,
     0xAA64D611, 0x580F5512, 0x4B5FA6E6, 0xB93425E5, 0x6DFE410E, 0x9F95C20D, 0x8CC531F9, 0x7EAEB2FA]
  }

  function Row3(): (r: seq<bv32>)
    ensures |r| == 16
  {
    [0x30E349B1, 0xC288CAB2, 0xD1D83946, 0x23B3BA45, 0xF779DEAE, 0x05125DAD, 0x1642AE59, 0xE4292D5A,
     0xBA3A117E, 0x4851927D, 0x5B016189, 0xA96AE28A, 0x7DA08661, 0x8FCB0562, 0x9C9BF696, 0x6EF07595]
  }

  function Row4(): (r: seq<bv32>)
    ensures |r| == 16
  {
    [0x417B1DBC, 0xB3109EBF, 0xA0406D4B, 0x522BEE48, 0x86E18AA3, 0x748A09A0, 0x67DAFA54, 0x95B17957,
     0xCBA24573, 0x39C9C670, 0x2A993584, 0xD8F2B687, 0x0C38D26C, 0xFE53516F, 0xED03A29B, 0x1F682198]
  }

  function Row5(): (r: seq<bv32>)
    ensures |r| == 16
  {
    [0x5125DAD3, 0xA34E59D0, 0xB01EAA24, 0x42752927, 0x96BF4DCC, 0x64D4CECF, 0x77843D3B, 0x85EFBE38,
     0xDBFC821C, 0x2997011F, 0x3AC7F2EB, 0xC8AC71E8, 0x1C661503, 0xEE0D9600, 0xFD5D65F4, 0x0F36E6F7]
  }

  function Row6(): (r: seq<bv32>)
    ensures |r| == 16
  {
    [0x61C69362, 0x93AD1061, 0x80FDE395, 0x72966096, 0xA65C047D, 0x5437877E, 0x4767748A, 0xB50CF789,
     0xEB1FCBAD, 0x197448AE, 0x0A24BB5A, 0xF84F3859, 0x2C855CB2, 0xDEEEDFB1, 0xCDBE2C45, 0x3FD5AF46]
  }

  function Row7(): (r: seq<bv32>)
    ensures |r| == 16
  {
    [0x7198540D, 0x83F3D70E, 0x90A324FA, 0x62C8A7F9, 0xB602C312, 0x44694011, 0x5739B3E5, 0xA55230E6,
     0xFB410CC2, 0x092A8FC1, 0x1A7A7C35, 0xE811FF36, 0x3CDB9BDD, 0xCEB018DE, 0xDDE0EB2A, 0x2F8B6829]
  }

  function Row8(): (r: seq<bv32>)
    ensures |r| == 16
  {
    [0x82F63B78, 0x709DB87B, 0x63CD4B8F, 0x91A6C88C, 0x456CAC67, 0xB7072F64, 0xA457DC90, 0x563C5F93,
     0x082F63B7, 0xFA44E0B4, 0xE9141340, 0x1B7F9043, 0xCFB5F4A8, 0x3DDE77AB, 0x2E8E845F, 0xDCE5075C]
  }

  function Row9(): (r: seq<bv32>)
    ensures |r| == 16
  {
    [0x92A8FC17, 0x60C37F14, 0x73938CE0, 0x81F80FE3, 0x55326B08, 0xA759E80B, 0xB4091BFF, 0x466298FC,
     0x1871A4D8, 0xEA1A27DB, 0xF94AD42F, 0x0B21572C, 0xDFEB33C7, 0x2D80B0C4, 0x3ED04330, 0xCCBBC033]
  }

  function RowA(): (r: seq<bv32>)
    ensures |r| == 16
  {
    [0xA24BB5A6, 0x502036A5, 0x4370C551, 0xB11B4652, 0x65D122B9, 0x97BAA1BA, 0x84EA524E, 0x7681D14D,
     0x2892ED69, 0xDAF96E6A, 0xC9A99D9E, 0x3BC21E9D, 0xEF087A76, 0x1D63F975, 0x0E330A81, 0xFC588982]
  }

  function RowB(): (r: seq<bv32>)
    ensures |r| == 16
  {
    [0xB21572C9, 0x407EF1CA, 0x532E023E, 0xA145813D, 0x758FE5D6, 0x87E466D5, 0x94B49521, 0x66DF1622,
     0x38CC2A06, 0xCAA7A905, 0xD9F75AF1, 0x2B9CD9F2, 0xFF56BD19, 0x0D3D3E1A, 0x1E6DCDEE, 0xEC064EED]
  }

  function RowC(): (r: seq<bv32>)
    ensures |r| == 16
  {
    [0xC38D26C4, 0x31E6A5C7, 0x22B65633, 0xD0DDD530, 0x0417B1DB, 0xF67C32D8, 0xE52CC12C, 0x1747422F,
     0x49547E0B, 0xBB3FFD08, 0xA86F0EFC, 0x5A048DFF, 0x8ECEE914, 0x7CA56A17, 0x6FF599E3, 0x9D9E1AE0]
  }

  function RowD(): (r: seq<bv32>)
    ensures |r| == 16
  {
    [0xD3D3E1AB, 0x21B862A8, 0x32E8915C, 0xC083125F, 0x144976B4, 0xE622F5B7, 0xF5720643, 0x07198540,
     0x590AB964, 0xAB613A67, 0xB831C993, 0x4A5A4A90, 0x9E902E7B, 0x6CFBAD78, 0x7FAB5E8C, 0x8DC0DD8F]
  }

  function RowE(): (r: seq<bv32>)
    ensures |r| == 16
  {
    [0xE330A81A, 0x115B2B19, 0x020BD8ED, 0xF0605BEE, 0x24AA3F05, 0xD6C1BC06, 0xC5914FF2, 0x37FACCF1,
     0x69E9F0D5, 0x9B8273D6, 0x88D28022, 0x7AB90321, 0xAE7367CA, 0x5C18E4C9, 0x4F48173D, 0xBD23943E]
  }

  function RowF(): (r: seq<bv32>)
    ensures |r| == 16
  {
    [0xF36E6F75, 0x0105EC76, 0x12551F82, 0xE03E9C81, 0x34F4F86A, 0xC69F7B69, 0xD5CF889D, 0x27A40B9E,
     0x79B737BA, 0x8BDCB4B9, 0x988C474D, 0x6AE7C44E, 0xBE2DA0A5, 0x4C4623A6, 0x5F16D052, 0xAD7D5351]
  }

  /** crc_c */
  function Table(): (r: seq<bv32>)
    ensures |r| == 256
  {
    Row0() + Row1() + Row2() + Row3() + Row4() + Row5() + Row6() + Row7() +
    Row8() + Row9() + RowA() + RowB() + RowC() + RowD() + RowE() + RowF()
  }

  /** The CRC32C macro. */
  function TableStep(c: bv32, d: bv8): bv32 {
    (c >> 8) ^ Table()[Low(c ^ (d as bv32)) as nat]
  }

  // ----- The register without input, and its linearity over exclusive or

  function Step(c: bv32): bv32 {
    if c & 1 == 1 then (c >> 1) ^ 0x82F63B78 else c >> 1
  }

  function Steps(c: bv32, n: nat): bv32 {
    if n == 0 then c else Step(Steps(c, n - 1))
  }

  lemma ShiftXor(a: bv32, b: bv32)
    ensures (a ^ b) >> 1 == (a >> 1) ^ (b >> 1)
    ensures ((a ^ b) & 1 == 1) == ((a & 1 == 1) != (b & 1 == 1))
  {
  }

  lemma XorRegroup(p: bv32, q: bv32, g: bv32)
    ensures (p ^ g) ^ (q ^ g) == p ^ q
    ensures (p ^ g) ^ q == (p ^ q) ^ g
    ensures p ^ (q ^ g) == (p ^ q) ^ g
  {
  }

  /** n steps of a sum are the sum of n steps. */
  predicate LinearAt(p: bv32, a: bv32, b: bv32, n: nat) {
    Steps(p, n) == Steps(a, n) ^ Steps(b, n)
  }

  /** Names for the registers after n steps. */
  predicate After(p: bv32, n: nat, s: bv32) {
    Steps(p, n) == s
  }

  lemma AfterNext(p: bv32, n: nat, s: bv32) returns (t: bv32)
    requires After(p, n, s)
    ensures After(p, n + 1, t) && t == Step(s)
  {
    t := Step(s);
  }

  lemma LinearNamed(p: bv32, a: bv32, b: bv32, n: nat, s: bv32, x: bv32, y: bv32)
    requires After(p, n, s) && After(a, n, x) && After(b, n, y) && s == x ^ y
    ensures LinearAt(p, a, b, n)
  {
  }

  lemma StepAdds(s: bv32, x: bv32, y: bv32, s': bv32, x': bv32, y': bv32)
    ensures s == x ^ y && s' == Step(s) && x' == Step(x) && y' == Step(y) ==> s' == x' ^ y'
  {
    ShiftXor(x, y);
    XorRegroup(x >> 1, y >> 1, 0x82F63B78);
  }

  lemma LinearNextNamed(p: bv32, a: bv32, b: bv32, n: nat, s: bv32, x: bv32, y: bv32)
    requires After(p, n, s) && After(a, n, x) && After(b, n, y) && s == x ^ y
    ensures LinearAt(p, a, b, n + 1)
  {
    var s' := AfterNext(p, n, s);
    var x' := AfterNext(a, n, x);
    var y' := AfterNext(b, n, y);
    StepAdds(s, x, y, s', x', y');
    LinearNamed(p, a, b, n + 1, s', x', y');
  }

  lemma LinearNext(p: bv32, a: bv32, b: bv32, n: nat)
    requires LinearAt(p, a, b, n)
    ensures LinearAt(p, a, b, n + 1)
  {
    LinearNextNamed(p, a, b, n, Steps(p, n), Steps(a, n), Steps(b, n));
  }

  lemma LinearBase(p: bv32, a: bv32, b: bv32)
    requires p == a ^ b
    ensures LinearAt(p, a, b, 0)
  {
  }

  lemma {:induction false} StepsLinear(p: bv32, a: bv32, b: bv32, n: nat)
    requires p == a ^ b
    ensures LinearAt(p, a, b, n)
  {
    if n == 0 {
      LinearBase(p, a, b);
    } else {
      StepsLinear(p, a, b, n - 1);
      LinearNext(p, a, b, n - 1);
    }
  }

  // ----- Feeding an octet is mixing it in and taking eight steps

  lemma FeedAdds(r: bv32, e: bv32, w: bv32, r': bv32, e': bv32, w': bv32)
    ensures r == e ^ w && r' == Feed(r, w & 1 == 1) && e' == Step(e) && w' == w >> 1 ==> r' == e' ^ w'
  {
    ShiftXor(e, w);
    XorRegroup(e >> 1, w >> 1, 0x82F63B78);
  }

  predicate SerialAt(c: bv32, e: bv32, w: bv32, n: nat) {
    Register(c, LowBits(w, n)) == Steps(e, n) ^ Shr(w, n)
  }

  lemma {:induction false} RegisterNext(c: bv32, bits: seq<bool>, b: bool)
    ensures Register(c, bits + [b]) == Feed(Register(c, bits), b)
  {
    assert (bits + [b])[..|bits|] == bits;
  }

  /** The register, the steps and the shifted word after n bits. */
  predicate At(c: bv32, e0: bv32, w0: bv32, n: nat, r: bv32, e: bv32, w: bv32) {
    Register(c, LowBits(w0, n)) == r && Steps(e0, n) == e && Shr(w0, n) == w
  }

  lemma AtNext(c: bv32, e0: bv32, w0: bv32, n: nat, r: bv32, e: bv32, w: bv32) returns (r': bv32, e': bv32, w': bv32)
    requires At(c, e0, w0, n, r, e, w)
    ensures At(c, e0, w0, n + 1, r', e', w')
    ensures r' == Feed(r, w & 1 == 1) && e' == Step(e) && w' == w >> 1
  {
    RegisterNext(c, LowBits(w0, n), w & 1 == 1);
    r', e', w' := Feed(r, w & 1 == 1), Step(e), w >> 1;
  }

  lemma SerialNamed(c: bv32, e0: bv32, w0: bv32, n: nat, r: bv32, e: bv32, w: bv32)
    requires At(c, e0, w0, n, r, e, w) && r == e ^ w
    ensures SerialAt(c, e0, w0, n)
  {
  }

  lemma SerialNextNamed(c: bv32, e0: bv32, w0: bv32, n: nat, r: bv32, e: bv32, w: bv32)
    requires At(c, e0, w0, n, r, e, w) && r == e ^ w
    ensures SerialAt(c, e0, w0, n + 1)
  {
    var r', e', w' := AtNext(c, e0, w0, n, r, e, w);
    FeedAdds(r, e, w, r', e', w');
    SerialNamed(c, e0, w0, n + 1, r', e', w');
  }

  lemma SerialNext(c: bv32, e: bv32, w: bv32, n: nat)
    requires SerialAt(c, e, w, n)
    ensures SerialAt(c, e, w, n + 1)
  {
    SerialNextNamed(c, e, w, n, Register(c, LowBits(w, n)), Steps(e, n), Shr(w, n));
  }

  lemma SerialBase(c: bv32, e: bv32, w: bv32)
    requires c == e ^ w
    ensures SerialAt(c, e, w, 0)
  {
  }

  lemma {:induction false} Serial(c: bv32, e: bv32, w: bv32, n: nat)
    requires c == e ^ w
    ensures SerialAt(c, e, w, n)
  {
    if n == 0 {
      SerialBase(c, e, w);
    } else {
      Serial(c, e, w, n - 1);
      SerialNext(c, e, w, n - 1);
    }
  }

  // ----- The table holds eight steps of every octet

  /** The exclusive or of the steps of the bits set in the octet x. */
  function Columns(x: bv32): bv32 {
    (if x & 1 == 1 then 0xF26B8303 else 0) ^ (if x & 2 == 2 then 0xE13B70F7 else 0) ^
    (if x & 4 == 4 then 0xC79A971F else 0) ^ (if x & 8 == 8 then 0x8AD958CF else 0) ^
    (if x & 16 == 16 then 0x105EC76F else 0) ^ (if x & 32 == 32 then 0x20BD8EDE else 0) ^
    (if x & 64 == 64 then 0x417B1DBC else 0) ^ (if x & 128 == 128 then 0x82F63B78 else 0)
  }

  lemma Row0Is(x: bv8)
    requires x >> 4 == 0
    ensures Table()[x as nat] == Columns(x as bv32)
  {
  }

  lemma Row1Is(x: bv8)
    requires x >> 4 == 1
    ensures Table()[x as nat] == Columns(x as bv32)
  {
  }

  lemma Row2Is(x: bv8)
    requires x >> 4 == 2
    ensures Table()[x as nat] == Columns(x as bv32)
  {
  }

  lemma Row3Is(x: bv8)
    requires x >> 4 == 3
    ensures Table()[x as nat] == Columns(x as bv32)
  {
  }

  lemma Row4Is(x: bv8)
    requires x >> 4 == 4
    ensures Table()[x as nat] == Columns(x as bv32)
  {
  }

  lemma Row5Is(x: bv8)
    requires x >> 4 == 5
    ensures Table()[x as nat] == Columns(x as bv32)
  {
  }

  lemma Row6Is(x: bv8)
    requires x >> 4 == 6
    ensures Table()[x as nat] == Columns(x as bv32)
  {
  }

  lemma Row7Is(x: bv8)
    requires x >> 4 == 7
    ensures Table()[x as nat] == Columns(x as bv32)
  {
  }

  lemma Row8Is(x: bv8)
    requires x >> 4 == 8
    ensures Table()[x as nat] == Columns(x as bv32)
  {
  }

  lemma Row9Is(x: bv8)
    requires x >> 4 == 9
    ensures Table()[x as nat] == Columns(x as bv32)
  {
  }

  lemma RowAIs(x: bv8)
    requires x >> 4 == 10
    ensures Table()[x as nat] == Columns(x as bv32)
  {
  }

  lemma RowBIs(x: bv8)
    requires x >> 4 == 11
    ensures Table()[x as nat] == Columns(x as bv32)
  {
  }

  lemma RowCIs(x: bv8)
    requires x >> 4 == 12
    ensures Table()[x as nat] == Columns(x as bv32)
  {
  }

  lemma RowDIs(x: bv8)
    requires x >> 4 == 13
    ensures Table()[x as nat] == Columns(x as bv32)
  {
  }

  lemma RowEIs(x: bv8)
    requires x >> 4 == 14
    ensures Table()[x as nat] == Columns(x as bv32)
  {
  }

  lemma RowFIs(x: bv8)
    requires x >> 4 == 15
    ensures Table()[x as nat] == Columns(x as bv32)
  {
  }

  lemma TableIsColumns(x: bv8)
    ensures Table()[x as nat] == Columns(x as bv32)
  {
    match x >> 4
    case 0 => Row0Is(x);
    case 1 => Row1Is(x);
    case 2 => Row2Is(x);
    case 3 => Row3Is(x);
    case 4 => Row4Is(x);
    case 5 => Row5Is(x);
    case 6 => Row6Is(x);
    case 7 => Row7Is(x);
    case 8 => Row8Is(x);
    case 9 => Row9Is(x);
    case 10 => RowAIs(x);
    case 11 => RowBIs(x);
    case 12 => RowCIs(x);
    case 13 => RowDIs(x);
    case 14 => RowEIs(x);
    case _ => RowFIs(x);
  }

  lemma Basis()
    ensures Steps(0, 8) == 0 && Steps(1, 8) == 0xF26B8303 && Steps(2, 8) == 0xE13B70F7
    ensures Steps(4, 8) == 0xC79A971F && Steps(8, 8) == 0x8AD958CF && Steps(16, 8) == 0x105EC76F
    ensures Steps(32, 8) == 0x20BD8EDE && Steps(64, 8) == 0x417B1DBC && Steps(128, 8) == 0x82F63B78
  {
  }

  predicate StepsTo(x: bv32, v: bv32) {
    Steps(x, 8) == v
  }

  lemma Join(x: bv32, a: bv32, b: bv32, v: bv32, w: bv32)
    requires x == a ^ b && StepsTo(a, v) && StepsTo(b, w)
    ensures StepsTo(x, v ^ w)
  {
    StepsLinear(x, a, b, 8);
  }

  lemma HighBitsPass(h: bv32)
    requires h & 0xFF == 0
    ensures StepsTo(h, h >> 8)
  {
    Unrolled(h);
    Shifted(h);
  }

  lemma {:induction false} Unrolled(h: bv32)
    ensures Steps(h, 8) == Step(Step(Step(Step(Step(Step(Step(Step(h))))))))
  {
    assert Steps(h, 1) == Step(h);
    assert Steps(h, 2) == Step(Steps(h, 1));
    assert Steps(h, 3) == Step(Steps(h, 2));
    assert Steps(h, 4) == Step(Steps(h, 3));
    assert Steps(h, 5) == Step(Steps(h, 4));
    assert Steps(h, 6) == Step(Steps(h, 5));
    assert Steps(h, 7) == Step(Steps(h, 6));
  }

  lemma Shifted(h: bv32)
    requires h & 0xFF == 0
    ensures Step(Step(Step(Step(Step(Step(Step(Step(h)))))))) == h >> 8
  {
  }

  lemma Parts(c: bv32, d: bv32) returns (x: bv32, h: bv32, l: bv32, c8: bv32)
    ensures x == c ^ d && h == x & 0xFFFF_FF00
    ensures l == x & 0xFF && c8 == c >> 8
  {
    x, h, l, c8 := c ^ d, (c ^ d) & 0xFFFF_FF00, (c ^ d) & 0xFF, c >> 8;
  }

  lemma PartsJoin(x: bv32, h: bv32, l: bv32)
    requires h == x & 0xFFFF_FF00 && l == x & 0xFF
    ensures x == h ^ l && h & 0xFF == 0
  {
  }

  lemma HighPart(c: bv32, d: bv32, x: bv32, h: bv32, c8: bv32)
    requires x == c ^ d && d < 256 && h == x & 0xFFFF_FF00 && c8 == c >> 8
    ensures h >> 8 == c8
  {
  }

  lemma SplitOctet(c: bv32, d: bv32) returns (x: bv32, h: bv32, l: bv32, c8: bv32)
    requires d < 256
    ensures x == c ^ d && l == (c ^ d) & 0xFF && c8 == c >> 8
    ensures x == h ^ l && h & 0xFF == 0 && h >> 8 == c8
  {
    x, h, l, c8 := Parts(c, d);
    PartsJoin(x, h, l);
    HighPart(c, d, x, h, c8);
  }

  lemma OctetNamed(x: bv32, h: bv32, l: bv32, c8: bv32, v: bv32)
    requires x == h ^ l && h & 0xFF == 0 && h >> 8 == c8 && StepsTo(l, v)
    ensures StepsTo(x, c8 ^ v)
  {
    HighBitsPass(h);
    Join(x, h, l, c8, v);
  }

  lemma Octet(c: bv32, d: bv32, v: bv32)
    requires d < 256 && StepsTo((c ^ d) & 0xFF, v)
    ensures StepsTo(c ^ d, (c >> 8) ^ v)
  {
    var x, h, l, c8 := SplitOctet(c, d);
    OctetNamed(x, h, l, c8, v);
  }

  /** The bit is set and adds its column, or it is clear and adds nothing. */
  predicate BitOf(b: bv32, bit: bv32, column: bv32, term: bv32) {
    (b == bit && term == column) || (b == 0 && term == 0)
  }

  lemma OneBit(b: bv32, bit: bv32, column: bv32, term: bv32)
    requires StepsTo(0, 0) && StepsTo(bit, column) && BitOf(b, bit, column, term)
    ensures StepsTo(b, term)
  {
  }

  lemma AddBit(x: bv32, a: bv32, b: bv32, bit: bv32, column: bv32, acc: bv32, term: bv32)
    requires StepsTo(0, 0) && StepsTo(bit, column) && BitOf(b, bit, column, term)
    requires StepsTo(a, acc) && x == a ^ b
    ensures StepsTo(x, acc ^ term)
  {
    OneBit(b, bit, column, term);
    Join(x, a, b, acc, term);
  }

  lemma Column(w: bv32, bit: bv32, column: bv32)
    requires bit == 1 || bit == 2 || bit == 4 || bit == 8 || bit == 16 || bit == 32 || bit == 64 || bit == 128
    ensures BitOf(w & bit, bit, column, if w & bit == bit then column else 0)
  {
  }

  lemma Masks(w: bv32)
    requires w < 256
    ensures w & 3 == (w & 1) ^ (w & 2) && w & 7 == (w & 3) ^ (w & 4) && w & 15 == (w & 7) ^ (w & 8)
    ensures w & 31 == (w & 15) ^ (w & 16) && w & 63 == (w & 31) ^ (w & 32)
    ensures w & 127 == (w & 63) ^ (w & 64) && w == (w & 127) ^ (w & 128)
  {
  }

  lemma ColumnsSum(w: bv32)
    requires w < 256
    ensures StepsTo(w, Columns(w))
  {
    Basis();
    Masks(w);
    var t1 := if w & 1 == 1 then 0xF26B8303 else 0;
    Column(w, 1, 0xF26B8303);
    OneBit(w & 1, 1, 0xF26B8303, t1);
    var t2 := if w & 2 == 2 then 0xE13B70F7 else 0;
    Column(w, 2, 0xE13B70F7);
    AddBit(w & 3, w & 1, w & 2, 2, 0xE13B70F7, t1, t2);
    var t4 := if w & 4 == 4 then 0xC79A971F else 0;
    Column(w, 4, 0xC79A971F);
    AddBit(w & 7, w & 3, w & 4, 4, 0xC79A971F, t1 ^ t2, t4);
    var t8 := if w & 8 == 8 then 0x8AD958CF else 0;
    Column(w, 8, 0x8AD958CF);
    AddBit(w & 15, w & 7, w & 8, 8, 0x8AD958CF, t1 ^ t2 ^ t4, t8);
    var t16 := if w & 16 == 16 then 0x105EC76F else 0;
    Column(w, 16, 0x105EC76F);
    AddBit(w & 31, w & 15, w & 16, 16, 0x105EC76F, t1 ^ t2 ^ t4 ^ t8, t16);
    var t32 := if w & 32 == 32 then 0x20BD8EDE else 0;
    Column(w, 32, 0x20BD8EDE);
    AddBit(w & 63, w & 31, w & 32, 32, 0x20BD8EDE, t1 ^ t2 ^ t4 ^ t8 ^ t16, t32);
    var t64 := if w & 64 == 64 then 0x417B1DBC else 0;
    Column(w, 64, 0x417B1DBC);
    AddBit(w & 127, w & 63, w & 64, 64, 0x417B1DBC, t1 ^ t2 ^ t4 ^ t8 ^ t16 ^ t32, t64);
    var t128 := if w & 128 == 128 then 0x82F63B78 else 0;
    Column(w, 128, 0x82F63B78);
    AddBit(w, w & 127, w & 128, 128, 0x82F63B78, t1 ^ t2 ^ t4 ^ t8 ^ t16 ^ t32 ^ t64, t128);
  }

  lemma {:induction false} ShrOctet(w: bv32)
    requires w < 256
    ensures Shr(w, 8) == 0
  {
    assert Shr(w, 1) == w >> 1;
    assert Shr(w, 2) == Shr(w, 1) >> 1;
    assert Shr(w, 3) == Shr(w, 2) >> 1;
    assert Shr(w, 4) == Shr(w, 3) >> 1;
    assert Shr(w, 5) == Shr(w, 4) >> 1;
    assert Shr(w, 6) == Shr(w, 5) >> 1;
    assert Shr(w, 7) == Shr(w, 6) >> 1;
  }

  lemma LowOctet(v: bv32)
    ensures Low(v) as bv32 == v & 0xFF
  {
  }

  lemma XorBack(c: bv32, w: bv32)
    ensures c == (c ^ w) ^ w
  {
  }

  lemma TableEntry(v: bv32)
    ensures StepsTo(v & 0xFF, Table()[Low(v) as nat])
  {
    TableIsColumns(Low(v));
    LowOctet(v);
    ColumnsSum(v & 0xFF);
  }

  lemma {:induction false} SerialOctet(c: bv32, e: bv32, w: bv32, v: bv32)
    requires c == e ^ w && w < 256 && StepsTo(e, v)
    ensures Register(c, LowBits(w, OCTET)) == v
  {
    Serial(c, e, w, 8);
    ShrOctet(w);
  }

  /** Feeding the octet w to the register c leaves r. */
  predicate Feeds(c: bv32, w: bv32, r: bv32) {
    Register(c, LowBits(w, OCTET)) == r
  }

  lemma EntryFeedsOctet(c: bv32, w: bv32, v: bv32, r: bv32)
    requires w < 256 && StepsTo((c ^ w) & 0xFF, v) && r == (c >> 8) ^ v
    ensures Feeds(c, w, r)
  {
    Octet(c, w, v);
    XorBack(c, w);
    SerialOctet(c, c ^ w, w, r);
  }

  lemma OctetBound(d: bv8)
    ensures d as bv32 < 256
  {
  }

  /** What the macro computes, piece by piece. */
  lemma TableStepParts(c: bv32, d: bv8) returns (w: bv32, v: bv32)
    ensures w == d as bv32 && v == Table()[Low(c ^ (d as bv32)) as nat]
    ensures StepsTo((c ^ w) & 0xFF, v)
  {
    TableEntry(c ^ (d as bv32));
    w, v := d as bv32, Table()[Low(c ^ (d as bv32)) as nat];
  }

  /** One table look-up feeds the eight bits of an octet. */
  lemma TableStepFeedsOctet(c: bv32, d: bv8)
    ensures Feeds(c, d as bv32, TableStep(c, d))
  {
    var w, v := TableStepParts(c, d);
    OctetBound(d);
    EntryFeedsOctet(c, w, v, TableStep(c, d));
  }

  lemma {:induction false} RegisterAppend(c: bv32, x: seq<bool>, y: seq<bool>)
    ensures Register(c, x + y) == Register(Register(c, x), y)
  {
    if y == [] {
      assert x + y == x;
    } else {
      RegisterAppend(c, x, y[..|y| - 1]);
      assert (x + y)[..|x + y| - 1] == x + y[..|y| - 1];
    }
  }

  // ----- The loop

  /** sctp_crc32c; the result is given as the octets of the returned word in memory. */
  method Crc32c(packet: seq<bv8>) returns (octets: seq<bv8>)
    ensures octets == LeastFirst(Crc(packet))
  {
    var crc32c: bv32 := 0xFFFF_FFFF;
    var i := 0;
    while i < |packet|
      invariant 0 <= i <= |packet|
      invariant crc32c == Register(0xFFFF_FFFF, Bits(packet[..i]))
    {
      TableStepFeedsOctet(crc32c, packet[i]);
      BitsNext(packet, i);
      RegisterAppend(0xFFFF_FFFF, Bits(packet[..i]), LowBits(packet[i] as bv32, OCTET));
      crc32c := TableStep(crc32c, packet[i]);
      i := i + 1;
    }
    assert packet[..i] == packet;
    crc32c := !crc32c;
    var byte0 := Low(crc32c);
    var byte1 := Low(crc32c >> 8);
    var byte2 := Low(crc32c >> 16);
    var byte3 := Low(crc32c >> 24);
    octets := Htonl(((byte0 as bv32) << 24) | ((byte1 as bv32) << 16) | ((byte2 as bv32) << 8) | (byte3 as bv32));
    Swapped(crc32c);
  }

  /** The octets of a word in network order, on a little-endian host. */
  function Htonl(v: bv32): (r: seq<bv8>)
    ensures |r| == 4
  {
    [Low(v >> 24), Low(v >> 16), Low(v >> 8), Low(v)]
  }

  lemma Swapped(v: bv32)
    ensures Htonl(((Low(v) as bv32) << 24) | ((Low(v >> 8) as bv32) << 16) | ((Low(v >> 16) as bv32) << 8) |
                  (Low(v >> 24) as bv32)) == LeastFirst(v)
  {
  }

  lemma BitsNext(m: seq<bv8>, i: nat)
    requires i < |m|
    ensures Bits(m[..i + 1]) == Bits(m[..i]) + LowBits(m[i] as bv32, OCTET)
  {
    assert m[..i + 1][..i] == m[..i];
  }

  // ----- What the sum detects

  /** The registers r and s differ by at least t, read as a number. */
  predicate Apart(r: bv32, s: bv32, t: bv32) {
    r ^ s >= t
  }

  lemma SameFeedback(x: bv32, y: bv32, t: bv32)
    ensures Apart(x, y, t) ==> Apart(x >> 1, y >> 1, t >> 1)
  {
  }

  lemma BothFeedback(x: bv32, y: bv32, t: bv32)
    ensures Apart(x, y, t) ==> Apart((x >> 1) ^ 0x82F63B78, (y >> 1) ^ 0x82F63B78, t >> 1)
  {
    SameFeedback(x, y, t);
    XorRegroup(x >> 1, y >> 1, 0x82F63B78);
  }

  lemma LeftFeedback(x: bv32, y: bv32, t: bv32)
    ensures Apart((x >> 1) ^ 0x82F63B78, y >> 1, t >> 1)
  {
  }

  lemma RightFeedback(x: bv32, y: bv32, t: bv32)
    ensures Apart(x >> 1, (y >> 1) ^ 0x82F63B78, t >> 1)
  {
  }

  lemma FeedApart(r: bv32, s: bv32, b: bool, d: bool, t: bv32)
    requires Apart(r, s, t)
    ensures Apart(Feed(r, b), Feed(s, d), t >> 1)
  {
    SameFeedback(r, s, t);
    BothFeedback(r, s, t);
    LeftFeedback(r, s, t);
    RightFeedback(r, s, t);
  }

  lemma FeedFirst(r: bv32, b: bool)
    ensures Apart(Feed(r, b), Feed(r, !b), 0x8000_0000)
  {
  }

  lemma FeedInjective(r: bv32, s: bv32, b: bool)
    ensures Feed(r, b) == Feed(s, b) ==> r == s
  {
  }

  /** 2^31 halved k times. */
  function Top(k: nat): bv32 {
    if k == 0 then 0x8000_0000 else Top(k - 1) >> 1
  }

  lemma {:induction false} TopPositive(k: nat, n: nat)
    requires k <= n && Top(n) != 0
    ensures Top(k) != 0
    decreases n
  {
    if k < n {
      TopPositive(k, n - 1);
    }
  }

  lemma TopOf31()
    ensures Top(31) == 1
  {
    assert Top(8) == 0x80_0000;
    assert Top(16) == 0x8000;
    assert Top(24) == 0x80;
  }

  lemma {:induction false} RegisterPrefix(c: bv32, x: seq<bool>, n: nat)
    requires n < |x|
    ensures Register(c, x[..n + 1]) == Feed(Register(c, x[..n]), x[n])
  {
    assert x[..n + 1] == x[..n] + [x[n]];
    RegisterNext(c, x[..n], x[n]);
  }

  predicate ApartAt(c: bv32, x: seq<bool>, y: seq<bool>, n: nat, t: bv32)
    requires n <= |x| && n <= |y|
  {
    Apart(Register(c, x[..n]), Register(c, y[..n]), t)
  }

  lemma ApartNext(c: bv32, x: seq<bool>, y: seq<bool>, n: nat, t: bv32)
    requires n < |x| && n < |y| && ApartAt(c, x, y, n, t)
    ensures ApartAt(c, x, y, n + 1, t >> 1)
  {
    RegisterPrefix(c, x, n);
    RegisterPrefix(c, y, n);
    FeedApart(Register(c, x[..n]), Register(c, y[..n]), x[n], y[n], t);
  }

  lemma ApartFirst(c: bv32, x: seq<bool>, y: seq<bool>, n: nat)
    requires n < |x| && n < |y| && x[..n] == y[..n] && x[n] != y[n]
    ensures ApartAt(c, x, y, n + 1, Top(0))
  {
    RegisterPrefix(c, x, n);
    RegisterPrefix(c, y, n);
    FeedFirst(Register(c, x[..n]), x[n]);
  }

  /** k bits after the first difference the registers are still 2^(31-k) apart, whatever those bits are. */
  lemma {:induction false} Window(c: bv32, x: seq<bool>, y: seq<bool>, i: nat, k: nat)
    requires |x| == |y| && i + 1 + k <= |x| && x[..i] == y[..i] && x[i] != y[i]
    ensures ApartAt(c, x, y, i + 1 + k, Top(k))
  {
    if k == 0 {
      ApartFirst(c, x, y, i);
    } else {
      Window(c, x, y, i, k - 1);
      ApartNext(c, x, y, i + k, Top(k - 1));
    }
  }

  predicate DifferAt(c: bv32, x: seq<bool>, y: seq<bool>, n: nat)
    requires n <= |x| && n <= |y|
  {
    Register(c, x[..n]) != Register(c, y[..n])
  }

  lemma DifferNext(c: bv32, x: seq<bool>, y: seq<bool>, n: nat)
    requires n < |x| && n < |y| && x[n] == y[n] && DifferAt(c, x, y, n)
    ensures DifferAt(c, x, y, n + 1)
  {
    RegisterPrefix(c, x, n);
    RegisterPrefix(c, y, n);
    FeedInjective(Register(c, x[..n]), Register(c, y[..n]), x[n]);
  }

  lemma {:induction false} Suffix(c: bv32, x: seq<bool>, y: seq<bool>, m: nat, n: nat)
    requires |x| == |y| && m <= n <= |x| && DifferAt(c, x, y, m)
    requires forall j :: m <= j < n ==> x[j] == y[j]
    ensures DifferAt(c, x, y, n)
  {
    if m < n {
      Suffix(c, x, y, m, n - 1);
      DifferNext(c, x, y, n - 1);
    }
  }

  lemma ApartDiffer(c: bv32, x: seq<bool>, y: seq<bool>, n: nat, t: bv32)
    requires n <= |x| && n <= |y| && ApartAt(c, x, y, n, t) && t != 0
    ensures DifferAt(c, x, y, n)
  {
  }

  /**
    Strings that differ, and only within 32 consecutive bits from their first difference at i, leave
    different registers.
   */
  lemma {:induction false} BurstChangesRegister(c: bv32, x: seq<bool>, y: seq<bool>, i: nat)
    requires |x| == |y| && i < |x| && x[..i] == y[..i] && x[i] != y[i]
    requires forall j :: i + 32 <= j < |x| ==> x[j] == y[j]
    ensures Register(c, x) != Register(c, y)
  {
    var k := if i + 32 <= |x| then 31 else |x| - i - 1;
    Window(c, x, y, i, k);
    TopOf31();
    TopPositive(k, 31);
    ApartDiffer(c, x, y, i + 1 + k, Top(k));
    Suffix(c, x, y, i + 1 + k, |x|);
    assert x[..|x|] == x && y[..|y|] == y;
  }

  /**
    Two messages of one length whose bits agree outside a window of 32 consecutive ones have the same
    sum only if they are equal.
   */
  lemma {:induction false} BurstsAreDetected(m: seq<bv8>, n: seq<bv8>, i: nat)
    requires |m| == |n|
    requires forall j :: 0 <= j < 8 * |m| && !(i <= j < i + 32) ==> Bits(m)[j] == Bits(n)[j]
    ensures Crc(m) == Crc(n) <==> m == n
  {
    if m != n && Bits(m) == Bits(n) {
      BitsInjective(m, n);
    } else if m != n {
      BurstChangesSum(Bits(m), Bits(n), i);
      ComplementInjective(Register(0xFFFF_FFFF, Bits(m)), Register(0xFFFF_FFFF, Bits(n)));
    }
  }

  lemma {:induction false} BurstChangesSum(x: seq<bool>, y: seq<bool>, i: nat)
    requires |x| == |y| && x != y
    requires forall j :: 0 <= j < |x| && !(i <= j < i + 32) ==> x[j] == y[j]
    ensures Register(0xFFFF_FFFF, x) != Register(0xFFFF_FFFF, y)
  {
    var f := FirstDifference(x, y);
    BurstChangesRegister(0xFFFF_FFFF, x, y, f);
  }

  lemma ComplementInjective(a: bv32, b: bv32)
    ensures !a == !b ==> a == b
  {
  }

  lemma FirstDifference(x: seq<bool>, y: seq<bool>) returns (f: nat)
    requires |x| == |y| && x != y
    ensures f < |x| && x[..f] == y[..f] && x[f] != y[f]
  {
    f := 0;
    while f < |x| && x[f] == y[f]
      invariant f <= |x| && x[..f] == y[..f]
    {
      f := f + 1;
    }
  }

  lemma {:induction false} BitsInjective(m: seq<bv8>, n: seq<bv8>)
    requires |m| == |n| && Bits(m) == Bits(n)
    ensures m == n
  {
    if m != [] {
      LastOctetInjective(m, n, |m| - 1);
      BitsInjective(m[..|m| - 1], n[..|m| - 1]);
      SameEnds(m, n, |m| - 1);
    }
  }

  lemma {:induction false} LastOctetInjective(m: seq<bv8>, n: seq<bv8>, k: nat)
    requires |m| == |n| == k + 1 && Bits(m) == Bits(n)
    ensures Bits(m[..k]) == Bits(n[..k]) && m[k] == n[k]
  {
    SameParts(Bits(m[..k]), LowBits(m[k] as bv32, OCTET), Bits(n[..k]), LowBits(n[k] as bv32, OCTET));
    OctetInjective(m[k], n[k]);
  }

  lemma SameParts(a: seq<bool>, b: seq<bool>, c: seq<bool>, d: seq<bool>)
    requires a + b == c + d && |a| == |c|
    ensures a == c && b == d
  {
    assert a == (a + b)[..|a|] && b == (a + b)[|a|..];
    assert c == (c + d)[..|c|] && d == (c + d)[|c|..];
  }

  lemma SameEnds<T>(m: seq<T>, n: seq<T>, k: nat)
    requires |m| == |n| == k + 1 && m[..k] == n[..k] && m[k] == n[k]
    ensures m == n
  {
    assert m == m[..k] + [m[k]] && n == n[..k] + [n[k]];
  }

  lemma OctetInjective(d: bv8, e: bv8)
    ensures LowBits(d as bv32, OCTET) == LowBits(e as bv32, OCTET) ==> d == e
  {
    if LowBits(d as bv32, OCTET) == LowBits(e as bv32, OCTET) {
      var v, w := d as bv32, e as bv32;
      XorSelf(v);
      XorSelf(w);
      SerialOctet(0, v, v, Steps(v, OCTET));
      SerialOctet(0, w, w, Steps(w, OCTET));
      StepsInjective(v, w, OCTET);
    }
  }

  lemma XorSelf(w: bv32)
    ensures w ^ w == 0
  {
  }

  lemma StepInjective(a: bv32, b: bv32)
    ensures Step(a) == Step(b) ==> a == b
  {
  }

  lemma StepsInjectiveNamed(a: bv32, b: bv32, n: nat, x: bv32, y: bv32)
    requires Steps(a, n) == x && Steps(b, n) == y
    ensures Steps(a, n + 1) == Steps(b, n + 1) ==> x == y
  {
    StepInjective(x, y);
  }

  predicate Meet(a: bv32, b: bv32, n: nat) {
    Steps(a, n) == Steps(b, n)
  }

  lemma MeetBefore(a: bv32, b: bv32, n: nat)
    requires Meet(a, b, n + 1)
    ensures Meet(a, b, n)
  {
    StepsInjectiveNamed(a, b, n, Steps(a, n), Steps(b, n));
  }

  lemma MeetAtStart(a: bv32, b: bv32)
    requires Meet(a, b, 0)
    ensures a == b
  {
  }

  lemma {:induction false} StepsInjective(a: bv32, b: bv32, n: nat)
    requires Meet(a, b, n)
    ensures a == b
  {
    if n == 0 {
      MeetAtStart(a, b);
    } else {
      MeetBefore(a, b, n - 1);
      StepsInjective(a, b, n - 1);
    }
  }
}
