/**
 * The standard check value of CRC-16/XMODEM, the CRC of the nine characters
 * "123456789", worked out one byte at a time: after each byte the register
 * holds the value named in the step.
 */
module CrcCheckValue {
  import opened CText
  import opened Crc

  /** The CRC of "123456789" from the preset is 0x31C3. */
  lemma CheckValue()
    ensures AsUint16(Crc16(PRESET_VALUE, "123456789")) == 0x31C3
  {
    Rest1("123456789");
  }

  /** Eight shifts of the register, one bit at a time. */
  lemma ShiftByte(r: Register)
    ensures ShiftBits(r, 8) == ShiftBit(ShiftBit(ShiftBit(ShiftBit(ShiftBit(ShiftBit(ShiftBit(ShiftBit(r))))))))
  {
    var r1 := ShiftBit(r);
    var r2 := ShiftBit(r1);
    var r3 := ShiftBit(r2);
    var r4 := ShiftBit(r3);
    var r5 := ShiftBit(r4);
    var r6 := ShiftBit(r5);
    var r7 := ShiftBit(r6);
    assert ShiftBits(r, 8) == ShiftBits(r1, 7);
    assert ShiftBits(r1, 7) == ShiftBits(r2, 6);
    assert ShiftBits(r2, 6) == ShiftBits(r3, 5);
    assert ShiftBits(r3, 5) == ShiftBits(r4, 4);
    assert ShiftBits(r4, 4) == ShiftBits(r5, 3);
    assert ShiftBits(r5, 3) == ShiftBits(r6, 2);
    assert ShiftBits(r6, 2) == ShiftBits(r7, 1);
    assert ShiftBits(r7, 1) == ShiftBits(ShiftBit(r7), 0);
  }

  /** Byte '1' takes the register from 0x0000 to 0x2672. */
  lemma Step1()
    ensures UpdateByte(Register(X0, X0, X0, X0), '1') == Register(X2, X6, X7, X2)
  {
    assert Xor(Register(X0, X0, X0, X0), HighByte('1')) == Register(X3, X1, X0, X0);
    ShiftByte(Register(X3, X1, X0, X0));
  }

  /** Byte '2' takes the register from 0x2672 to 0x20B5. */
  lemma Step2()
    ensures UpdateByte(Register(X2, X6, X7, X2), '2') == Register(X2, X0, XB, X5)
  {
    assert Xor(Register(X2, X6, X7, X2), HighByte('2')) == Register(X1, X4, X7, X2);
    ShiftByte(Register(X1, X4, X7, X2));
  }

  /** Byte '3' takes the register from 0x20B5 to 0x9752. */
  lemma Step3()
    ensures UpdateByte(Register(X2, X0, XB, X5), '3') == Register(X9, X7, X5, X2)
  {
    assert Xor(Register(X2, X0, XB, X5), HighByte('3')) == Register(X1, X3, XB, X5);
    ShiftByte(Register(X1, X3, XB, X5));
  }

  /** Byte '4' takes the register from 0x9752 to 0xD789. */
  lemma Step4()
    ensures UpdateByte(Register(X9, X7, X5, X2), '4') == Register(XD, X7, X8, X9)
  {
    assert Xor(Register(X9, X7, X5, X2), HighByte('4')) == Register(XA, X3, X5, X2);
    ShiftByte(Register(XA, X3, X5, X2));
  }

  /** Byte '5' takes the register from 0xD789 to 0x546C. */
  lemma Step5()
    ensures UpdateByte(Register(XD, X7, X8, X9), '5') == Register(X5, X4, X6, XC)
  {
    assert Xor(Register(XD, X7, X8, X9), HighByte('5')) == Register(XE, X2, X8, X9);
    ShiftByte(Register(XE, X2, X8, X9));
  }

  /** Byte '6' takes the register from 0x546C to 0x20E4. */
  lemma Step6()
    ensures UpdateByte(Register(X5, X4, X6, XC), '6') == Register(X2, X0, XE, X4)
  {
    assert Xor(Register(X5, X4, X6, XC), HighByte('6')) == Register(X6, X2, X6, XC);
    ShiftByte(Register(X6, X2, X6, XC));
  }

  /** Byte '7' takes the register from 0x20E4 to 0x86D6. */
  lemma Step7()
    ensures UpdateByte(Register(X2, X0, XE, X4), '7') == Register(X8, X6, XD, X6)
  {
    assert Xor(Register(X2, X0, XE, X4), HighByte('7')) == Register(X1, X7, XE, X4);
    ShiftByte(Register(X1, X7, XE, X4));
  }

  /** Byte '8' takes the register from 0x86D6 to 0x9015. */
  lemma Step8()
    ensures UpdateByte(Register(X8, X6, XD, X6), '8') == Register(X9, X0, X1, X5)
  {
    assert Xor(Register(X8, X6, XD, X6), HighByte('8')) == Register(XB, XE, XD, X6);
    ShiftByte(Register(XB, XE, XD, X6));
  }

  /** Byte '9' takes the register from 0x9015 to 0x31C3. */
  lemma Step9()
    ensures UpdateByte(Register(X9, X0, X1, X5), '9') == Register(X3, X1, XC, X3)
  {
    assert Xor(Register(X9, X0, X1, X5), HighByte('9')) == Register(XA, X9, X1, X5);
    ShiftByte(Register(XA, X9, X1, X5));
  }

  lemma Rest1(d: seq<Byte>)
    requires d == "123456789"
    ensures Crc16(Register(X0, X0, X0, X0), d) == Register(X3, X1, XC, X3)
  {
    assert d[0] == '1' && d[1..] == "23456789";
    Step1();
    Rest2(d[1..]);
  }

  lemma Rest2(d: seq<Byte>)
    requires d == "23456789"
    ensures Crc16(Register(X2, X6, X7, X2), d) == Register(X3, X1, XC, X3)
  {
    assert d[0] == '2' && d[1..] == "3456789";
    Step2();
    Rest3(d[1..]);
  }

  lemma Rest3(d: seq<Byte>)
    requires d == "3456789"
    ensures Crc16(Register(X2, X0, XB, X5), d) == Register(X3, X1, XC, X3)
  {
    assert d[0] == '3' && d[1..] == "456789";
    Step3();
    Rest4(d[1..]);
  }

  lemma Rest4(d: seq<Byte>)
    requires d == "456789"
    ensures Crc16(Register(X9, X7, X5, X2), d) == Register(X3, X1, XC, X3)
  {
    assert d[0] == '4' && d[1..] == "56789";
    Step4();
    Rest5(d[1..]);
  }

  lemma Rest5(d: seq<Byte>)
    requires d == "56789"
    ensures Crc16(Register(XD, X7, X8, X9), d) == Register(X3, X1, XC, X3)
  {
    assert d[0] == '5' && d[1..] == "6789";
    Step5();
    Rest6(d[1..]);
  }

  lemma Rest6(d: seq<Byte>)
    requires d == "6789"
    ensures Crc16(Register(X5, X4, X6, XC), d) == Register(X3, X1, XC, X3)
  {
    assert d[0] == '6' && d[1..] == "789";
    Step6();
    Rest7(d[1..]);
  }

  lemma Rest7(d: seq<Byte>)
    requires d == "789"
    ensures Crc16(Register(X2, X0, XE, X4), d) == Register(X3, X1, XC, X3)
  {
    assert d[0] == '7' && d[1..] == "89";
    Step7();
    Rest8(d[1..]);
  }

  lemma Rest8(d: seq<Byte>)
    requires d == "89"
    ensures Crc16(Register(X8, X6, XD, X6), d) == Register(X3, X1, XC, X3)
  {
    assert d[0] == '8' && d[1..] == "9";
    Step8();
    Rest9(d[1..]);
  }

  lemma Rest9(d: seq<Byte>)
    requires d == "9"
    ensures Crc16(Register(X9, X0, X1, X5), d) == Register(X3, X1, XC, X3)
  {
    assert d[0] == '9' && d[1..] == "";
    Step9();
  }
}
