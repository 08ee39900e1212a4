/**
 The optional year filter typed into the search bar. The box holds at most
 four characters; after each edit a non-empty entry is kept only when it
 reads as a year from 1888 to 2024 and is exactly four characters long,
 otherwise the box is cleared and the entry is flagged invalid.
 */
module YearInput {
  import opened Text

  const FirstYear: int := 1888
  const LastYear: int := 2024

  /** The box is a five-byte buffer: four characters and the terminator. */
  const BufferCapacity: nat := 4

  /** What the edit leaves in the box, and whether the entry is flagged valid. */
  datatype YearCheck = YearCheck(buffer: string, valid: bool)

  /**
   The check run after the year box is edited: an empty box is valid; an
   entry that `std::stoi` reads is valid when the value is in range and the
   entry is four characters; anything else is invalid. An invalid entry
   clears the box.
   */
  function ValidateYearInput(buffer: string): (r: YearCheck)
    requires |buffer| <= BufferCapacity
    ensures r.valid <==> r.buffer == buffer && (|buffer| == 0 || Stoi(buffer).Parsed?)
    ensures !r.valid ==> r.buffer == []
    ensures r.valid && |buffer| > 0 ==> |buffer| == 4 && FirstYear <= Stoi(buffer).n <= LastYear
  {
    if |buffer| == 0 then YearCheck(buffer, true)
    else
      match Stoi(buffer)
      case Parsed(y) =>
        if FirstYear <= y <= LastYear && |buffer| == 4 then YearCheck(buffer, true)
        else YearCheck([], false)
      case InvalidArgument => YearCheck([], false)
      case OutOfRange => YearCheck([], false)
  }

  /** Fewer than four digits are worth less than 1000. */
  lemma ShortNumeralBelowThousand(ds: string)
    requires AllDigits(ds) && |ds| < 4
    ensures DigitsValue(ds) < 1000
  {
    DigitsValueBound(ds);
    assert Pow10(1) == 10 && Pow10(2) == 100 && Pow10(3) == 1000;
  }

  /**
   A short text that `std::stoi` reads as 1000 or more is a plain four-digit
   numeral: a sign or white space would leave room for three digits at most.
   */
  lemma LargeShortReadingIsPlain(s: string)
    requires |s| <= 4 && Stoi(s).Parsed? && Stoi(s).n >= 1000
    ensures |s| == 4 && AllDigits(s) && Stoi(s).n == DigitsValue(s)
  {
    var ds := StoiDigits(s);
    if |ds| < 4 {
      ShortNumeralBelowThousand(ds);
    }
  }

  /**
   A non-empty entry is accepted exactly when it is four plain digits whose
   value lies in 1888..2024: no sign, no white space, no trailing text.
   */
  lemma AcceptedYearsAreFourDigits(buffer: string)
    requires 0 < |buffer| <= BufferCapacity
    ensures ValidateYearInput(buffer).valid <==>
      |buffer| == 4 && AllDigits(buffer) && FirstYear <= DigitsValue(buffer) <= LastYear
  {
    if |buffer| == 4 && AllDigits(buffer) && FirstYear <= DigitsValue(buffer) <= LastYear {
      StoiOfDigits(buffer);
    }
    if ValidateYearInput(buffer).valid {
      LargeShortReadingIsPlain(buffer);
    }
  }

  /** Whatever was typed, the box never keeps an entry that would be rejected. */
  lemma BoxHoldsOnlyAcceptedEntries(buffer: string)
    requires |buffer| <= BufferCapacity
    ensures ValidateYearInput(ValidateYearInput(buffer).buffer).valid
  {
  }

  /** "1999" is accepted; "1887", "2025" and "199" are not. */
  lemma YearInputExamples()
    ensures ValidateYearInput("1999") == YearCheck("1999", true)
    ensures ValidateYearInput("1887") == YearCheck([], false)
    ensures ValidateYearInput("2025") == YearCheck([], false)
    ensures ValidateYearInput("199") == YearCheck([], false)
  {
    assert DigitsValue("1999") == 1999 by {
      assert "1999"[..3] == "199" && "199"[..2] == "19" && "19"[..1] == "1" && "1"[..0] == "";
    }
    assert DigitsValue("1887") == 1887 by {
      assert "1887"[..3] == "188" && "188"[..2] == "18" && "18"[..1] == "1" && "1"[..0] == "";
    }
    assert DigitsValue("2025") == 2025 by {
      assert "2025"[..3] == "202" && "202"[..2] == "20" && "20"[..1] == "2" && "2"[..0] == "";
    }
    AcceptedYearsAreFourDigits("1999");
    AcceptedYearsAreFourDigits("1887");
    AcceptedYearsAreFourDigits("2025");
    AcceptedYearsAreFourDigits("199");
  }

  /** "-999" is four characters but not four digits, so it is cleared. */
  lemma YearInputSignedExample()
    ensures ValidateYearInput("-999") == YearCheck([], false)
  {
    AcceptedYearsAreFourDigits("-999");
    assert !IsDigit("-999"[0]);
  }
}
