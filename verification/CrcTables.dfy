/**
  The two lookup tables of src/crc.c, entry for entry, sixteen to a row, and the proof that every
  entry is what eight bitwise steps make of its index: the tables are linear, so evaluating the first
  row and the first column is enough.
 */
module CrcTables {
  import Gf2
  import opened Words

  const POLY16: bv64 := 0x8408
  const POLY32: bv64 := 0xEDB8_8320

  /** crc16_table (src/crc.c:4-31), sixteen entries to a row. */
  function Crc16Row(h: nat): (row: seq<bv64>)
    ensures |row| == 16
  {
    match h
    case 0 => [
      0x0000, 0x1189, 0x2312, 0x329B, 0x4624, 0x57AD, 0x6536, 0x74BF,
      0x8C48, 0x9DC1, 0xAF5A, 0xBED3, 0xCA6C, 0xDBE5, 0xE97E, 0xF8F7]
    case 1 => [
      0x1081, 0x0108, 0x3393, 0x221A, 0x56A5, 0x472C, 0x75B7, 0x643E,
      0x9CC9, 0x8D40, 0xBFDB, 0xAE52, 0xDAED, 0xCB64, 0xF9FF, 0xE876]
    case 2 => [
      0x2102, 0x308B, 0x0210, 0x1399, 0x6726, 0x76AF, 0x4434, 0x55BD,
      0xAD4A, 0xBCC3, 0x8E58, 0x9FD1, 0xEB6E, 0xFAE7, 0xC87C, 0xD9F5]
    case 3 => [
      0x3183, 0x200A, 0x1291, 0x0318, 0x77A7, 0x662E, 0x54B5, 0x453C,
      0xBDCB, 0xAC42, 0x9ED9, 0x8F50, 0xFBEF, 0xEA66, 0xD8FD, 0xC974]
    case 4 => [
      0x4204, 0x538D, 0x6116, 0x709F, 0x0420, 0x15A9, 0x2732, 0x36BB,
      0xCE4C, 0xDFC5, 0xED5E, 0xFCD7, 0x8868, 0x99E1, 0xAB7A, 0xBAF3]
    case 5 => [
      0x5285, 0x430C, 0x7197, 0x601E, 0x14A1, 0x0528, 0x37B3, 0x263A,
      0xDECD, 0xCF44, 0xFDDF, 0xEC56, 0x98E9, 0x8960, 0xBBFB, 0xAA72]
    case 6 => [
      0x6306, 0x728F, 0x4014, 0x519D, 0x2522, 0x34AB, 0x0630, 0x17B9,
      0xEF4E, 0xFEC7, 0xCC5C, 0xDDD5, 0xA96A, 0xB8E3, 0x8A78, 0x9BF1]
    case 7 => [
      0x7387, 0x620E, 0x5095, 0x411C, 0x35A3, 0x242A, 0x16B1, 0x0738,
      0xFFCF, 0xEE46, 0xDCDD, 0xCD54, 0xB9EB, 0xA862, 0x9AF9, 0x8B70]
    case 8 => [
      0x8408, 0x9581, 0xA71A, 0xB693, 0xC22C, 0xD3A5, 0xE13E, 0xF0B7,
      0x0840, 0x19C9, 0x2B52, 0x3ADB, 0x4E64, 0x5FED, 0x6D76, 0x7CFF]
    case 9 => [
      0x9489, 0x8500, 0xB79B, 0xA612, 0xD2AD, 0xC324, 0xF1BF, 0xE036,
      0x18C1, 0x0948, 0x3BD3, 0x2A5A, 0x5EE5, 0x4F6C, 0x7DF7, 0x6C7E]
    case 10 => [
      0xA50A, 0xB483, 0x8618, 0x9791, 0xE32E, 0xF2A7, 0xC03C, 0xD1B5,
      0x2942, 0x38CB, 0x0A50, 0x1BD9, 0x6F66, 0x7EEF, 0x4C74, 0x5DFD]
    case 11 => [
      0xB58B, 0xA402, 0x9699, 0x8710, 0xF3AF, 0xE226, 0xD0BD, 0xC134,
      0x39C3, 0x284A, 0x1AD1, 0x0B58, 0x7FE7, 0x6E6E, 0x5CF5, 0x4D7C]
    case 12 => [
      0xC60C, 0xD785, 0xE51E, 0xF497, 0x8028, 0x91A1, 0xA33A, 0xB2B3,
      0x4A44, 0x5BCD, 0x6956, 0x78DF, 0x0C60, 0x1DE9, 0x2F72, 0x3EFB]
    case 13 => [
      0xD68D, 0xC704, 0xF59F, 0xE416, 0x90A9, 0x8120, 0xB3BB, 0xA232,
      0x5AC5, 0x4B4C, 0x79D7, 0x685E, 0x1CE1, 0x0D68, 0x3FF3, 0x2E7A]
    case 14 => [
      0xE70E, 0xF687, 0xC41C, 0xD595, 0xA12A, 0xB0A3, 0x8238, 0x93B1,
      0x6B46, 0x7ACF, 0x4854, 0x59DD, 0x2D62, 0x3CEB, 0x0E70, 0x1FF9]
    case _ => [
      0xF78F, 0xE606, 0xD49D, 0xC514, 0xB1AB, 0xA022, 0x92B9, 0x8330,
      0x7BC7, 0x6A4E, 0x58D5, 0x495C, 0x3DE3, 0x2C6A, 0x1EF1, 0x0F78]
  }

  /** crc32_table (src/crc.c:33-78), sixteen entries to a row. */
  function Crc32Row(h: nat): (row: seq<bv64>)
    ensures |row| == 16
  {
    match h
    case 0 => [
      0x00000000, 0x77073096, 0xEE0E612C, 0x990951BA, 0x076DC419, 0x706AF48F, 0xE963A535, 0x9E6495A3,
      0x0EDB8832, 0x79DCB8A4, 0xE0D5E91E, 0x97D2D988, 0x09B64C2B, 0x7EB17CBD, 0xE7B82D07, 0x90BF1D91]
    case 1 => [
      0x1DB71064, 0x6AB020F2, 0xF3B97148, 0x84BE41DE, 0x1ADAD47D, 0x6DDDE4EB, 0xF4D4B551, 0x83D385C7,
      0x136C9856, 0x646BA8C0, 0xFD62F97A, 0x8A65C9EC, 0x14015C4F, 0x63066CD9, 0xFA0F3D63, 0x8D080DF5]
    case 2 => [
      0x3B6E20C8, 0x4C69105E, 0xD56041E4, 0xA2677172, 0x3C03E4D1, 0x4B04D447, 0xD20D85FD, 0xA50AB56B,
      0x35B5A8FA, 0x42B2986C, 0xDBBBC9D6, 0xACBCF940, 0x32D86CE3, 0x45DF5C75, 0xDCD60DCF, 0xABD13D59]
    case 3 => [
      0x26D930AC, 0x51DE003A, 0xC8D75180, 0xBFD06116, 0x21B4F4B5, 0x56B3C423, 0xCFBA9599, 0xB8BDA50F,
      0x2802B89E, 0x5F058808, 0xC60CD9B2, 0xB10BE924, 0x2F6F7C87, 0x58684C11, 0xC1611DAB, 0xB6662D3D]
    case 4 => [
      0x76DC4190, 0x01DB7106, 0x98D220BC, 0xEFD5102A, 0x71B18589, 0x06B6B51F, 0x9FBFE4A5, 0xE8B8D433,
      0x7807C9A2, 0x0F00F934, 0x9609A88E, 0xE10E9818, 0x7F6A0DBB, 0x086D3D2D, 0x91646C97, 0xE6635C01]
    case 5 => [
      0x6B6B51F4, 0x1C6C6162, 0x856530D8, 0xF262004E, 0x6C0695ED, 0x1B01A57B, 0x8208F4C1, 0xF50FC457,
      0x65B0D9C6, 0x12B7E950, 0x8BBEB8EA, 0xFCB9887C, 0x62DD1DDF, 0x15DA2D49, 0x8CD37CF3, 0xFBD44C65]
    case 6 => [
      0x4DB26158, 0x3AB551CE, 0xA3BC0074, 0xD4BB30E2, 0x4ADFA541, 0x3DD895D7, 0xA4D1C46D, 0xD3D6F4FB,
      0x4369E96A, 0x346ED9FC, 0xAD678846, 0xDA60B8D0, 0x44042D73, 0x33031DE5, 0xAA0A4C5F, 0xDD0D7CC9]
    case 7 => [
      0x5005713C, 0x270241AA, 0xBE0B1010, 0xC90C2086, 0x5768B525, 0x206F85B3, 0xB966D409, 0xCE61E49F,
      0x5EDEF90E, 0x29D9C998, 0xB0D09822, 0xC7D7A8B4, 0x59B33D17, 0x2EB40D81, 0xB7BD5C3B, 0xC0BA6CAD]
    case 8 => [
      0xEDB88320, 0x9ABFB3B6, 0x03B6E20C, 0x74B1D29A, 0xEAD54739, 0x9DD277AF, 0x04DB2615, 0x73DC1683,
      0xE3630B12, 0x94643B84, 0x0D6D6A3E, 0x7A6A5AA8, 0xE40ECF0B, 0x9309FF9D, 0x0A00AE27, 0x7D079EB1]
    case 9 => [
      0xF00F9344, 0x8708A3D2, 0x1E01F268, 0x6906C2FE, 0xF762575D, 0x806567CB, 0x196C3671, 0x6E6B06E7,
      0xFED41B76, 0x89D32BE0, 0x10DA7A5A, 0x67DD4ACC, 0xF9B9DF6F, 0x8EBEEFF9, 0x17B7BE43, 0x60B08ED5]
    case 10 => [
      0xD6D6A3E8, 0xA1D1937E, 0x38D8C2C4, 0x4FDFF252, 0xD1BB67F1, 0xA6BC5767, 0x3FB506DD, 0x48B2364B,
      0xD80D2BDA, 0xAF0A1B4C, 0x36034AF6, 0x41047A60, 0xDF60EFC3, 0xA867DF55, 0x316E8EEF, 0x4669BE79]
    case 11 => [
      0xCB61B38C, 0xBC66831A, 0x256FD2A0, 0x5268E236, 0xCC0C7795, 0xBB0B4703, 0x220216B9, 0x5505262F,
      0xC5BA3BBE, 0xB2BD0B28, 0x2BB45A92, 0x5CB36A04, 0xC2D7FFA7, 0xB5D0CF31, 0x2CD99E8B, 0x5BDEAE1D]
    case 12 => [
      0x9B64C2B0, 0xEC63F226, 0x756AA39C, 0x026D930A, 0x9C0906A9, 0xEB0E363F, 0x72076785, 0x05005713,
      0x95BF4A82, 0xE2B87A14, 0x7BB12BAE, 0x0CB61B38, 0x92D28E9B, 0xE5D5BE0D, 0x7CDCEFB7, 0x0BDBDF21]
    case 13 => [
      0x86D3D2D4, 0xF1D4E242, 0x68DDB3F8, 0x1FDA836E, 0x81BE16CD, 0xF6B9265B, 0x6FB077E1, 0x18B74777,
      0x88085AE6, 0xFF0F6A70, 0x66063BCA, 0x11010B5C, 0x8F659EFF, 0xF862AE69, 0x616BFFD3, 0x166CCF45]
    case 14 => [
      0xA00AE278, 0xD70DD2EE, 0x4E048354, 0x3903B3C2, 0xA7672661, 0xD06016F7, 0x4969474D, 0x3E6E77DB,
      0xAED16A4A, 0xD9D65ADC, 0x40DF0B66, 0x37D83BF0, 0xA9BCAE53, 0xDEBB9EC5, 0x47B2CF7F, 0x30B5FFE9]
    case _ => [
      0xBDBDF21C, 0xCABAC28A, 0x53B39330, 0x24B4A3A6, 0xBAD03605, 0xCDD70693, 0x54DE5729, 0x23D967BF,
      0xB3667A2E, 0xC4614AB8, 0x5D681B02, 0x2A6F2B94, 0xB40BBE37, 0xC30C8EA1, 0x5A05DF1B, 0x2D02EF8D]
  }

  /** The halves of an index: its row, and its place in the row. */
  function High4(i: Byte): (k: nat)
    ensures k < 16
  {
    (i >> 4) as nat
  }

  function Low4(i: Byte): (k: nat)
    ensures k < 16
  {
    (i & 0xF) as nat
  }

  /** The entry of crc16_table at index `i`. */
  function Crc16Table(i: Byte): bv64 {
    Crc16Row(High4(i))[Low4(i)]
  }

  /** The entry of crc32_table at index `i`. */
  function Crc32Table(i: Byte): bv64 {
    Crc32Row(High4(i))[Low4(i)]
  }

  /** The table-free byte transform of csc_update_crc, before the shifted register is added. */
  function CscByte(x: bv64): bv64 {
    Spread(Fold(x))
  }

  function Fold(x: bv64): Byte {
    LowByte(Xor(x, x << 4))
  }

  function Spread(y: bv64): bv64 {
    Xor(Xor((y << 8) & 0xFFFF, y << 3), y >> 4)
  }

  // ----- the tables are linear: an entry is the sum of the first in its row and the first in its column

  ghost predicate IsSum(row: seq<bv64>, first: seq<bv64>)
    requires |row| == 16 && |first| == 16
  {
    var c := row[0];
    row == [Xor(c, first[0]), Xor(c, first[1]), Xor(c, first[2]), Xor(c, first[3]),
            Xor(c, first[4]), Xor(c, first[5]), Xor(c, first[6]), Xor(c, first[7]),
            Xor(c, first[8]), Xor(c, first[9]), Xor(c, first[10]), Xor(c, first[11]),
            Xor(c, first[12]), Xor(c, first[13]), Xor(c, first[14]), Xor(c, first[15])]
  }

  lemma SumAt(row: seq<bv64>, first: seq<bv64>, l: nat)
    requires |row| == 16 && |first| == 16 && l < 16 && IsSum(row, first)
    ensures row[l] == Xor(row[0], first[l])
  {
    hide Xor;
    match l {
      case 0 => case 1 => case 2 => case 3 => case 4 => case 5 => case 6 => case 7 =>
      case 8 => case 9 => case 10 => case 11 => case 12 => case 13 => case 14 => case 15 =>
    }
  }

  lemma Sums16_0()
    ensures IsSum(Crc16Row(0), Crc16Row(0))
    ensures IsSum(Crc16Row(1), Crc16Row(0))
    ensures IsSum(Crc16Row(2), Crc16Row(0))
    ensures IsSum(Crc16Row(3), Crc16Row(0))
  {
  }

  lemma Sums16_1()
    ensures IsSum(Crc16Row(4), Crc16Row(0))
    ensures IsSum(Crc16Row(5), Crc16Row(0))
    ensures IsSum(Crc16Row(6), Crc16Row(0))
    ensures IsSum(Crc16Row(7), Crc16Row(0))
  {
  }

  lemma Sums16_2()
    ensures IsSum(Crc16Row(8), Crc16Row(0))
    ensures IsSum(Crc16Row(9), Crc16Row(0))
    ensures IsSum(Crc16Row(10), Crc16Row(0))
    ensures IsSum(Crc16Row(11), Crc16Row(0))
  {
  }

  lemma Sums16_3()
    ensures IsSum(Crc16Row(12), Crc16Row(0))
    ensures IsSum(Crc16Row(13), Crc16Row(0))
    ensures IsSum(Crc16Row(14), Crc16Row(0))
    ensures IsSum(Crc16Row(15), Crc16Row(0))
  {
  }

  lemma Sums16(h: nat)
    requires h < 16
    ensures IsSum(Crc16Row(h), Crc16Row(0))
  {
    hide *;
    match h {
      case 0 => Sums16_0(); case 1 => Sums16_0(); case 2 => Sums16_0(); case 3 => Sums16_0();
      case 4 => Sums16_1(); case 5 => Sums16_1(); case 6 => Sums16_1(); case 7 => Sums16_1();
      case 8 => Sums16_2(); case 9 => Sums16_2(); case 10 => Sums16_2(); case 11 => Sums16_2();
      case 12 => Sums16_3(); case 13 => Sums16_3(); case 14 => Sums16_3(); case 15 => Sums16_3();
    }
  }

  lemma Sums32_0()
    ensures IsSum(Crc32Row(0), Crc32Row(0))
    ensures IsSum(Crc32Row(1), Crc32Row(0))
    ensures IsSum(Crc32Row(2), Crc32Row(0))
    ensures IsSum(Crc32Row(3), Crc32Row(0))
  {
  }

  lemma Sums32_1()
    ensures IsSum(Crc32Row(4), Crc32Row(0))
    ensures IsSum(Crc32Row(5), Crc32Row(0))
    ensures IsSum(Crc32Row(6), Crc32Row(0))
    ensures IsSum(Crc32Row(7), Crc32Row(0))
  {
  }

  lemma Sums32_2()
    ensures IsSum(Crc32Row(8), Crc32Row(0))
    ensures IsSum(Crc32Row(9), Crc32Row(0))
    ensures IsSum(Crc32Row(10), Crc32Row(0))
    ensures IsSum(Crc32Row(11), Crc32Row(0))
  {
  }

  lemma Sums32_3()
    ensures IsSum(Crc32Row(12), Crc32Row(0))
    ensures IsSum(Crc32Row(13), Crc32Row(0))
    ensures IsSum(Crc32Row(14), Crc32Row(0))
    ensures IsSum(Crc32Row(15), Crc32Row(0))
  {
  }

  lemma Sums32(h: nat)
    requires h < 16
    ensures IsSum(Crc32Row(h), Crc32Row(0))
  {
    hide *;
    match h {
      case 0 => Sums32_0(); case 1 => Sums32_0(); case 2 => Sums32_0(); case 3 => Sums32_0();
      case 4 => Sums32_1(); case 5 => Sums32_1(); case 6 => Sums32_1(); case 7 => Sums32_1();
      case 8 => Sums32_2(); case 9 => Sums32_2(); case 10 => Sums32_2(); case 11 => Sums32_2();
      case 12 => Sums32_3(); case 13 => Sums32_3(); case 14 => Sums32_3(); case 15 => Sums32_3();
    }
  }

  // ----- the first row and the first column, by evaluation

  lemma Octet16Row(l: nat)
    requires l < 16
    ensures Crc16Row(0)[l] == Octet(POLY16, Index(l))
  {
    var row := Crc16Row(0);
    match l {
      case 0 => case 1 => case 2 => case 3 => case 4 => case 5 => case 6 => case 7 =>
      case 8 => case 9 => case 10 => case 11 => case 12 => case 13 => case 14 => case 15 =>
    }
  }

  lemma Octet16Column(h: nat)
    requires h < 16
    ensures Crc16Row(h)[0] == Octet(POLY16, Index(h) << 4)
  {
    match h {
      case 0 => case 1 => case 2 => case 3 => case 4 => case 5 => case 6 => case 7 =>
      case 8 => case 9 => case 10 => case 11 => case 12 => case 13 => case 14 => case 15 =>
    }
  }

  lemma Octet32Row(l: nat)
    requires l < 16
    ensures Crc32Row(0)[l] == Octet(POLY32, Index(l))
  {
    var row := Crc32Row(0);
    match l {
      case 0 => case 1 => case 2 => case 3 => case 4 => case 5 => case 6 => case 7 =>
      case 8 => case 9 => case 10 => case 11 => case 12 => case 13 => case 14 => case 15 =>
    }
  }

  lemma Octet32Column(h: nat)
    requires h < 16
    ensures Crc32Row(h)[0] == Octet(POLY32, Index(h) << 4)
  {
    match h {
      case 0 => case 1 => case 2 => case 3 => case 4 => case 5 => case 6 => case 7 =>
      case 8 => case 9 => case 10 => case 11 => case 12 => case 13 => case 14 => case 15 =>
    }
  }

  lemma CscRow(l: nat)
    requires l < 16
    ensures Crc16Row(0)[l] == CscByte(Index(l))
  {
    var row := Crc16Row(0);
    match l {
      case 0 => case 1 => case 2 => case 3 => case 4 => case 5 => case 6 => case 7 =>
      case 8 => case 9 => case 10 => case 11 => case 12 => case 13 => case 14 => case 15 =>
    }
  }

  lemma CscColumn(h: nat)
    requires h < 16
    ensures Crc16Row(h)[0] == CscByte(Index(h) << 4)
  {
    match h {
      case 0 => case 1 => case 2 => case 3 => case 4 => case 5 => case 6 => case 7 =>
      case 8 => case 9 => case 10 => case 11 => case 12 => case 13 => case 14 => case 15 =>
    }
  }

  // ----- every entry

  lemma IndexOf(x: bv64)
    requires x < 16
    ensures Index(x as nat) == x
  {
    assert x == 0 || x == 1 || x == 2 || x == 3 || x == 4 || x == 5 || x == 6 || x == 7
        || x == 8 || x == 9 || x == 10 || x == 11 || x == 12 || x == 13 || x == 14 || x == 15;
  }

  /** An index is the sum of its row and its place. */
  lemma Halves(i: Byte)
    ensures Index(High4(i)) == i >> 4 && Index(Low4(i)) == i & 0xF
    ensures i == Xor(Index(High4(i)) << 4, Index(Low4(i)))
  {
    IndexOf(i >> 4);
    IndexOf(i & 0xF);
    hide Index;
  }

  /** Every entry of crc16_table is what eight steps make of its index. */
  lemma Table16IsOctet(i: Byte)
    ensures Crc16Table(i) == Octet(POLY16, i)
  {
    hide Octet, Crc16Row, Index, High4, Low4, IsSum, Xor;
    var h, l := High4(i), Low4(i);
    Halves(i);
    Sums16(h);
    SumAt(Crc16Row(h), Crc16Row(0), l);
    Octet16Row(l);
    Octet16Column(h);
    OctetXor(POLY16, Index(h) << 4, Index(l));
  }

  /** Every entry of crc32_table likewise. */
  lemma Table32IsOctet(i: Byte)
    ensures Crc32Table(i) == Octet(POLY32, i)
  {
    hide Octet, Crc32Row, Index, High4, Low4, IsSum, Xor;
    var h, l := High4(i), Low4(i);
    Halves(i);
    Sums32(h);
    SumAt(Crc32Row(h), Crc32Row(0), l);
    Octet32Row(l);
    Octet32Column(h);
    OctetXor(POLY32, Index(h) << 4, Index(l));
  }

  /** The table-free transform yields the same entries, because it is linear too. */
  lemma TableIsCscByte(i: Byte)
    ensures Crc16Table(i) == CscByte(i)
  {
    hide CscByte, Crc16Row, Index, High4, Low4, IsSum, Xor;
    var h, l := High4(i), Low4(i);
    Halves(i);
    Sums16(h);
    SumAt(Crc16Row(h), Crc16Row(0), l);
    CscRow(l);
    CscColumn(h);
    CscLinear(i >> 4 << 4, i & 0xF);
  }

  lemma CscLinear(a: Byte, b: Byte)
    ensures CscByte(Xor(a, b)) == Xor(CscByte(a), CscByte(b))
  {
    hide Fold, Spread;
    FoldLinear(a, b);
    SpreadLinear(Fold(a), Fold(b));
  }

  lemma FoldLinear(a: Byte, b: Byte)
    ensures Fold(Xor(a, b)) == Xor(Fold(a), Fold(b))
  {
    Shift4Linear(a, b);
    hide Xor, LowByte;
    XorRegroup(a, b, a << 4, b << 4);
    MaskLinear(Xor(a, a << 4), Xor(b, b << 4));
  }

  lemma SpreadLinear(a: Byte, b: Byte)
    ensures Spread(Xor(a, b)) == Xor(Spread(a), Spread(b))
  {
    hide Xor;
    Shift8Linear(a, b);
    Shift3Linear(a, b);
    Right4Linear(a, b);
    XorRegroup((a << 8) & 0xFFFF, (b << 8) & 0xFFFF, a << 3, b << 3);
    XorRegroup(Xor((a << 8) & 0xFFFF, a << 3), Xor((b << 8) & 0xFFFF, b << 3), a >> 4, b >> 4);
  }

  lemma Shift4Linear(a: Byte, b: Byte)
    ensures Xor(a, b) << 4 == Xor(a << 4, b << 4)
  {
  }

  lemma MaskLinear(a: bv64, b: bv64)
    ensures LowByte(Xor(a, b)) == Xor(LowByte(a), LowByte(b))
  {
  }

  lemma Shift3Linear(a: Byte, b: Byte)
    ensures Xor(a, b) << 3 == Xor(a << 3, b << 3)
  {
  }

  lemma Shift8Linear(a: Byte, b: Byte)
    ensures (Xor(a, b) << 8) & 0xFFFF == Xor((a << 8) & 0xFFFF, (b << 8) & 0xFFFF)
  {
  }

  lemma Right4Linear(a: Byte, b: Byte)
    ensures Xor(a, b) >> 4 == Xor(a >> 4, b >> 4)
  {
  }

  lemma XorRegroup(a: bv64, b: bv64, c: bv64, d: bv64)
    ensures Xor(Xor(a, b), Xor(c, d)) == Xor(Xor(a, c), Xor(b, d))
  {
    hide Xor, Bits;
    BitsXor(a, b);
    BitsXor(c, d);
    BitsXor(a, c);
    BitsXor(b, d);
    BitsXor(Xor(a, b), Xor(c, d));
    BitsXor(Xor(a, c), Xor(b, d));
    Gf2.SumRegroup(Bits(a), Bits(b), Bits(c), Bits(d));
    hide Gf2.Sum;
    BitsEqual(Xor(Xor(a, b), Xor(c, d)), Xor(Xor(a, c), Xor(b, d)));
  }
}
