/**
 * The table of the 16-bit frame check sequence (RFC 1662, appendix C.2) and the proof that every entry is what
 * eight shifts of the bit-serial register make of its index. The rows are joined four at a time so that an
 * entry is found in two short steps.
 */
module FcsTable {
  /** One shift; the bit shifted out feeds the reversed polynomial x^16 + x^12 + x^5 + 1 back in. */
  function BitStep(v: bv16): bv16 {
    var out := v & 1;
    (v >> 1) ^ (out << 15) ^ (out << 10) ^ (out << 3)
  }

  /** The same shift in the form of RFC 1662: the polynomial is applied when a one is shifted out. */
  lemma BitStepIsConditional(v: bv16)
    ensures BitStep(v) == if v & 1 == 1 then (v >> 1) ^ 0x8408 else v >> 1
  {
    if v & 1 == 1 {
      assert BitStep(v) == (v >> 1) ^ (1 << 15) ^ (1 << 10) ^ (1 << 3);
    } else {
      assert v & 1 == 0;
    }
  }

  function EightSteps(v: bv16): bv16 {
    BitStep(BitStep(BitStep(BitStep(BitStep(BitStep(BitStep(BitStep(v))))))))
  }

  function Row0(): (t: seq<bv16>)
    ensures |t| == 16
  {
    [0x0000, 0x1189, 0x2312, 0x329b, 0x4624, 0x57ad, 0x6536, 0x74bf,
     0x8c48, 0x9dc1, 0xaf5a, 0xbed3, 0xca6c, 0xdbe5, 0xe97e, 0xf8f7]
  }

  function Row1(): (t: seq<bv16>)
    ensures |t| == 16
  {
    [0x1081, 0x0108, 0x3393, 0x221a, 0x56a5, 0x472c, 0x75b7, 0x643e,
     0x9cc9, 0x8d40, 0xbfdb, 0xae52, 0xdaed, 0xcb64, 0xf9ff, 0xe876]
  }

  function Row2(): (t: seq<bv16>)
    ensures |t| == 16
  {
    [0x2102, 0x308b, 0x0210, 0x1399, 0x6726, 0x76af, 0x4434, 0x55bd,
     0xad4a, 0xbcc3, 0x8e58, 0x9fd1, 0xeb6e, 0xfae7, 0xc87c, 0xd9f5]
  }

  function Row3(): (t: seq<bv16>)
    ensures |t| == 16
  {
    [0x3183, 0x200a, 0x1291, 0x0318, 0x77a7, 0x662e, 0x54b5, 0x453c,
     0xbdcb, 0xac42, 0x9ed9, 0x8f50, 0xfbef, 0xea66, 0xd8fd, 0xc974]
  }

  function Row4(): (t: seq<bv16>)
    ensures |t| == 16
  {
    [0x4204, 0x538d, 0x6116, 0x709f, 0x0420, 0x15a9, 0x2732, 0x36bb,
     0xce4c, 0xdfc5, 0xed5e, 0xfcd7, 0x8868, 0x99e1, 0xab7a, 0xbaf3]
  }

  function Row5(): (t: seq<bv16>)
    ensures |t| == 16
  {
    [0x5285, 0x430c, 0x7197, 0x601e, 0x14a1, 0x0528, 0x37b3, 0x263a,
     0xdecd, 0xcf44, 0xfddf, 0xec56, 0x98e9, 0x8960, 0xbbfb, 0xaa72]
  }

  function Row6(): (t: seq<bv16>)
    ensures |t| == 16
  {
    [0x6306, 0x728f, 0x4014, 0x519d, 0x2522, 0x34ab, 0x0630, 0x17b9,
     0xef4e, 0xfec7, 0xcc5c, 0xddd5, 0xa96a, 0xb8e3, 0x8a78, 0x9bf1]
  }

  function Row7(): (t: seq<bv16>)
    ensures |t| == 16
  {
    [0x7387, 0x620e, 0x5095, 0x411c, 0x35a3, 0x242a, 0x16b1, 0x0738,
     0xffcf, 0xee46, 0xdcdd, 0xcd54, 0xb9eb, 0xa862, 0x9af9, 0x8b70]
  }

  function Row8(): (t: seq<bv16>)
    ensures |t| == 16
  {
    [0x8408, 0x9581, 0xa71a, 0xb693, 0xc22c, 0xd3a5, 0xe13e, 0xf0b7,
     0x0840, 0x19c9, 0x2b52, 0x3adb, 0x4e64, 0x5fed, 0x6d76, 0x7cff]
  }

  function Row9(): (t: seq<bv16>)
    ensures |t| == 16
  {
    [0x9489, 0x8500, 0xb79b, 0xa612, 0xd2ad, 0xc324, 0xf1bf, 0xe036,
     0x18c1, 0x0948, 0x3bd3, 0x2a5a, 0x5ee5, 0x4f6c, 0x7df7, 0x6c7e]
  }

  function RowA(): (t: seq<bv16>)
    ensures |t| == 16
  {
    [0xa50a, 0xb483, 0x8618, 0x9791, 0xe32e, 0xf2a7, 0xc03c, 0xd1b5,
     0x2942, 0x38cb, 0x0a50, 0x1bd9, 0x6f66, 0x7eef, 0x4c74, 0x5dfd]
  }

  function RowB(): (t: seq<bv16>)
    ensures |t| == 16
  {
    [0xb58b, 0xa402, 0x9699, 0x8710, 0xf3af, 0xe226, 0xd0bd, 0xc134,
     0x39c3, 0x284a, 0x1ad1, 0x0b58, 0x7fe7, 0x6e6e, 0x5cf5, 0x4d7c]
  }

  function RowC(): (t: seq<bv16>)
    ensures |t| == 16
  {
    [0xc60c, 0xd785, 0xe51e, 0xf497, 0x8028, 0x91a1, 0xa33a, 0xb2b3,
     0x4a44, 0x5bcd, 0x6956, 0x78df, 0x0c60, 0x1de9, 0x2f72, 0x3efb]
  }

  function RowD(): (t: seq<bv16>)
    ensures |t| == 16
  {
    [0xd68d, 0xc704, 0xf59f, 0xe416, 0x90a9, 0x8120, 0xb3bb, 0xa232,
     0x5ac5, 0x4b4c, 0x79d7, 0x685e, 0x1ce1, 0x0d68, 0x3ff3, 0x2e7a]
  }

  function RowE(): (t: seq<bv16>)
    ensures |t| == 16
  {
    [0xe70e, 0xf687, 0xc41c, 0xd595, 0xa12a, 0xb0a3, 0x8238, 0x93b1,
     0x6b46, 0x7acf, 0x4854, 0x59dd, 0x2d62, 0x3ceb, 0x0e70, 0x1ff9]
  }

  function RowF(): (t: seq<bv16>)
    ensures |t| == 16
  {
    [0xf78f, 0xe606, 0xd49d, 0xc514, 0xb1ab, 0xa022, 0x92b9, 0x8330,
     0x7bc7, 0x6a4e, 0x58d5, 0x495c, 0x3de3, 0x2c6a, 0x1ef1, 0x0f78]
  }

  function Quarter0(): (t: seq<bv16>)
    ensures |t| == 64
  {
    Row0() + Row1() + Row2() + Row3()
  }

  function Quarter1(): (t: seq<bv16>)
    ensures |t| == 64
  {
    Row4() + Row5() + Row6() + Row7()
  }

  function Quarter2(): (t: seq<bv16>)
    ensures |t| == 64
  {
    Row8() + Row9() + RowA() + RowB()
  }

  function Quarter3(): (t: seq<bv16>)
    ensures |t| == 64
  {
    RowC() + RowD() + RowE() + RowF()
  }

  function FcsTab(): (t: seq<bv16>)
    ensures |t| == 256
  {
    Quarter0() + Quarter1() + Quarter2() + Quarter3()
  }

  lemma Row0IsBitSerial(x: bv16)
    requires 0 <= x < 16
    ensures Row0()[x as int - 0] == EightSteps(x)
  {
  }

  lemma Row1IsBitSerial(x: bv16)
    requires 16 <= x < 32
    ensures Row1()[x as int - 16] == EightSteps(x)
  {
  }

  lemma Row2IsBitSerial(x: bv16)
    requires 32 <= x < 48
    ensures Row2()[x as int - 32] == EightSteps(x)
  {
  }

  lemma Row3IsBitSerial(x: bv16)
    requires 48 <= x < 64
    ensures Row3()[x as int - 48] == EightSteps(x)
  {
  }

  lemma Row4IsBitSerial(x: bv16)
    requires 64 <= x < 80
    ensures Row4()[x as int - 64] == EightSteps(x)
  {
  }

  lemma Row5IsBitSerial(x: bv16)
    requires 80 <= x < 96
    ensures Row5()[x as int - 80] == EightSteps(x)
  {
  }

  lemma Row6IsBitSerial(x: bv16)
    requires 96 <= x < 112
    ensures Row6()[x as int - 96] == EightSteps(x)
  {
  }

  lemma Row7IsBitSerial(x: bv16)
    requires 112 <= x < 128
    ensures Row7()[x as int - 112] == EightSteps(x)
  {
  }

  lemma Row8IsBitSerial(x: bv16)
    requires 128 <= x < 144
    ensures Row8()[x as int - 128] == EightSteps(x)
  {
  }

  lemma Row9IsBitSerial(x: bv16)
    requires 144 <= x < 160
    ensures Row9()[x as int - 144] == EightSteps(x)
  {
  }

  lemma RowAIsBitSerial(x: bv16)
    requires 160 <= x < 176
    ensures RowA()[x as int - 160] == EightSteps(x)
  {
  }

  lemma RowBIsBitSerial(x: bv16)
    requires 176 <= x < 192
    ensures RowB()[x as int - 176] == EightSteps(x)
  {
  }

  lemma RowCIsBitSerial(x: bv16)
    requires 192 <= x < 208
    ensures RowC()[x as int - 192] == EightSteps(x)
  {
  }

  lemma RowDIsBitSerial(x: bv16)
    requires 208 <= x < 224
    ensures RowD()[x as int - 208] == EightSteps(x)
  {
  }

  lemma RowEIsBitSerial(x: bv16)
    requires 224 <= x < 240
    ensures RowE()[x as int - 224] == EightSteps(x)
  {
  }

  lemma RowFIsBitSerial(x: bv16)
    requires 240 <= x < 256
    ensures RowF()[x as int - 240] == EightSteps(x)
  {
  }

  lemma Quarter0IsBitSerial(x: bv16)
    requires x < 64
    ensures Quarter0()[x as int] == EightSteps(x)
  {
    hide Row0, Row1, Row2, Row3, EightSteps;
    if x < 16 {
      Row0IsBitSerial(x);
    } else if x < 32 {
      Row1IsBitSerial(x);
    } else if x < 48 {
      Row2IsBitSerial(x);
    } else {
      Row3IsBitSerial(x);
    }
  }

  lemma Quarter1IsBitSerial(x: bv16)
    requires 64 <= x < 128
    ensures Quarter1()[x as int - 64] == EightSteps(x)
  {
    hide Row4, Row5, Row6, Row7, EightSteps;
    if x < 80 {
      Row4IsBitSerial(x);
    } else if x < 96 {
      Row5IsBitSerial(x);
    } else if x < 112 {
      Row6IsBitSerial(x);
    } else {
      Row7IsBitSerial(x);
    }
  }

  lemma Quarter2IsBitSerial(x: bv16)
    requires 128 <= x < 192
    ensures Quarter2()[x as int - 128] == EightSteps(x)
  {
    hide Row8, Row9, RowA, RowB, EightSteps;
    if x < 144 {
      Row8IsBitSerial(x);
    } else if x < 160 {
      Row9IsBitSerial(x);
    } else if x < 176 {
      RowAIsBitSerial(x);
    } else {
      RowBIsBitSerial(x);
    }
  }

  lemma Quarter3IsBitSerial(x: bv16)
    requires 192 <= x < 256
    ensures Quarter3()[x as int - 192] == EightSteps(x)
  {
    hide RowC, RowD, RowE, RowF, EightSteps;
    if x < 208 {
      RowCIsBitSerial(x);
    } else if x < 224 {
      RowDIsBitSerial(x);
    } else if x < 240 {
      RowEIsBitSerial(x);
    } else {
      RowFIsBitSerial(x);
    }
  }

  lemma FcsTabIsBitSerial(x: bv16)
    requires x < 256
    ensures FcsTab()[x as int] == EightSteps(x)
  {
    hide Quarter0, Quarter1, Quarter2, Quarter3, EightSteps;
    if x < 64 {
      Quarter0IsBitSerial(x);
    } else if x < 128 {
      Quarter1IsBitSerial(x);
    } else if x < 192 {
      Quarter2IsBitSerial(x);
    } else {
      Quarter3IsBitSerial(x);
    }
  }
}
