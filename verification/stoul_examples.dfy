/** Bound texts as rule files write them, and what the bound parser makes of them. */
module StoulExamples {
  import opened Common
  import opened Stoul

  lemma ValueOf800()
    ensures AllHexDigits("800") && DigitsValue("800") == 0x800
  {
    assert "800"[..2] == "80" && "80"[..1] == "8" && "8"[..0] == "";
  }

  lemma ValueOf8FF()
    ensures AllHexDigits("8FF") && DigitsValue("8FF") == 0x8FF
  {
    assert "8FF"[..2] == "8F" && "8F"[..1] == "8" && "8"[..0] == "";
  }

  lemma ValueOf1()
    ensures AllHexDigits("1") && DigitsValue("1") == 1
  {
    assert "1"[..0] == "";
  }

  /** Bounds as a rule file writes them are read as the intended numbers. */
  lemma WrittenBoundsRead()
    ensures Stoul16("0x800") == Some(0x800)
    ensures Stoul16("0x8FF") == Some(0x8FF)
  {
    assert "0x" + "800" + "" == "0x800";
    assert "0x" + "8FF" + "" == "0x8FF";
    ValueOf800();
    PrefixedDigitsRead("800", "");
    ValueOf8FF();
    PrefixedDigitsRead("8FF", "");
  }

  /** Reading stops at the first character that is not a hexadecimal digit. */
  lemma TrailingTextIgnored()
    ensures Stoul16("0x800 // end") == Some(0x800)
  {
    assert "0x" + "800" + " // end" == "0x800 // end";
    ValueOf800();
    PrefixedDigitsRead("800", " // end");
  }

  /** A minus sign wraps around modulo 2^32. */
  lemma MinusOneWraps()
    ensures Stoul16("-0x1") == Some(0xFFFF_FFFF)
  {
    assert "-0x" + "1" + "" == "-0x1";
    ValueOf1();
    NegatedDigitsRead("1", "");
  }

  /** A bound wider than 32 bits is refused. */
  lemma WideBoundRefused()
    ensures Stoul16(FormatHex(0x1_0000_0000)).None?
  {
    DigitsValueOfHexDigits(0x1_0000_0000);
    OverflowRefused(HexDigits(0x1_0000_0000));
  }

  /** Text with no hexadecimal digit is refused. */
  lemma NonNumericBoundRefused()
    ensures Stoul16("high").None?
    ensures Stoul16("").None?
  {
    NoDigitsRefused("high");
    NoDigitsRefused("");
  }
}
