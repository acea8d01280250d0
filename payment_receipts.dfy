/**
 * Sample receipts for the payment-receipt validator: one that passes, the
 * same with status PENDING, an amount written after a bare "NPR", and a
 * status captured in mixed case.
 */
module PaymentReceipts {
  import opened Wrappers
  import opened Strings
  import opened PaymentOcr

  /** A pattern field whose match has a single group. */
  lemma SingleGroupField(f: Field, text: string, rx: Matchers, v: string)
    requires rx.search(f)(text) == Some([Some(v)]) && v != []
    ensures FieldValue(f, text, rx) == Some(Strip(v))
  {
    assert IsFirstTruthy([Some(v)], 0);
  }

  lemma SuccessWord()
    ensures Upper("SUCCESS") == "SUCCESS"
  {
    UpperUnchanged("SUCCESS");
  }

  lemma PendingWord()
    ensures Upper("PENDING") != "SUCCESS"
  {
    UpperUnchanged("PENDING");
  }

  /** The captures of the sample receipt, as recorded. */
  lemma SampleFields(text: string, rx: Matchers, status: string, amount: string, code: string, date: string)
    requires status == "SUCCESS" && amount == "1,250.00" && code == "123456789" && date == "05 Jan 2024, 10:15 AM"
    requires rx.search(Status)(text) == Some([Some(status)])
    requires rx.search(Amount)(text) == Some([Some(amount), None])
    requires rx.search(ReferenceCode)(text) == Some([Some(code)])
    requires rx.search(DateTime)(text) == Some([Some(date)])
    ensures FieldValue(Status, text, rx) == Some(status)
    ensures FieldValue(Amount, text, rx) == Some(amount)
    ensures FieldValue(ReferenceCode, text, rx) == Some(code)
    ensures FieldValue(DateTime, text, rx) == Some(date)
  {
    StripUnchanged(status);
    StripUnchanged(amount);
    StripUnchanged(code);
    StripUnchanged(date);
    SingleGroupField(Status, text, rx, status);
    SingleGroupField(ReferenceCode, text, rx, code);
    SingleGroupField(DateTime, text, rx, date);
    FirstGroupField(Amount, text, rx, amount);
  }

  /** A pattern field whose match has a matched group, then an unmatched one. */
  lemma FirstGroupField(f: Field, text: string, rx: Matchers, v: string)
    requires rx.search(f)(text) == Some([Some(v), None]) && v != []
    ensures FieldValue(f, text, rx) == Some(Strip(v))
  {
    var groups: Groups := [Some(v), None];
    assert Truthy(groups[0]);
  }

  /** A pattern field whose match has an unmatched group, then a matched one. */
  lemma SecondGroupField(f: Field, text: string, rx: Matchers, v: string)
    requires rx.search(f)(text) == Some([None, Some(v)]) && v != []
    ensures FieldValue(f, text, rx) == Some(Strip(v))
  {
    var groups: Groups := [None, Some(v)];
    assert groups[1..] == [Some(v)];
    assert FirstNonEmpty(groups[1..]) == Some(v);
  }

  /**
   * A receipt whose patterns capture SUCCESS, an amount after
   * "Amount (NPR)" (the first alternative's group; the second is
   * unmatched), a reference code and a date, with the merchant present: it
   * is valid, and the record holds the captures.
   */
  lemma SuccessfulReceipt(ocrText: string, rx: Matchers, status: string, amount: string, code: string, date: string)
    requires status == "SUCCESS" && amount == "1,250.00" && code == "123456789" && date == "05 Jan 2024, 10:15 AM"
    requires var text := SearchText(ocrText, rx);
      rx.search(Status)(text) == Some([Some(status)]) &&
      rx.search(Amount)(text) == Some([Some(amount), None]) &&
      rx.search(ReferenceCode)(text) == Some([Some(code)]) &&
      rx.search(DateTime)(text) == Some([Some(date)]) &&
      rx.merchant(text)
    ensures var data := ExtractedData(ocrText, rx);
      IsValid(data) &&
      data[Status] == Some(status) && data[Amount] == Some(amount) &&
      data[ReferenceCode] == Some(code) && data[DateTime] == Some(date) &&
      data[Merchant] == Some(CanonicalMerchant)
  {
    SampleFields(SearchText(ocrText, rx), rx, status, amount, code, date);
    SuccessWord();
  }

  /**
   * An amount written after a bare "NPR" is captured by the second
   * alternative's group, the first being unmatched, and is recorded.
   */
  lemma BareNprAmount(ocrText: string, rx: Matchers, amount: string)
    requires amount == "1,250.00"
    requires rx.search(Amount)(SearchText(ocrText, rx)) == Some([None, Some(amount)])
    ensures ExtractedData(ocrText, rx)[Amount] == Some(amount)
  {
    StripUnchanged(amount);
    SecondGroupField(Amount, SearchText(ocrText, rx), rx, amount);
  }

  /** A field whose pattern captures something has a value in the record. */
  lemma CapturedFieldPresent(ocrText: string, rx: Matchers, f: Field)
    requires f in PatternFields && Captures(f, SearchText(ocrText, rx), rx)
    ensures ExtractedData(ocrText, rx)[f].Some?
  {
    FieldValueFirstGroup(f, SearchText(ocrText, rx), rx);
  }

  /** A captured status PENDING is recorded as such and fails the status test. */
  lemma PendingStatusRejected(ocrText: string, rx: Matchers, status: string)
    requires status == "PENDING"
    requires rx.search(Status)(SearchText(ocrText, rx)) == Some([Some(status)])
    ensures var data := ExtractedData(ocrText, rx);
      data[Status] == Some(status) && !IsValid(data)
  {
    StripUnchanged(status);
    SingleGroupField(Status, SearchText(ocrText, rx), rx, status);
    PendingWord();
  }

  /** The same receipt with status PENDING is not valid, all else being found. */
  lemma PendingReceipt(ocrText: string, rx: Matchers, status: string)
    requires status == "PENDING"
    requires var text := SearchText(ocrText, rx);
      rx.search(Status)(text) == Some([Some(status)]) &&
      Captures(Amount, text, rx) && Captures(ReferenceCode, text, rx) && Captures(DateTime, text, rx) &&
      rx.merchant(text)
    ensures var data := ExtractedData(ocrText, rx);
      !IsValid(data) && data[Status] == Some(status) &&
      data[Amount].Some? && data[ReferenceCode].Some? && data[DateTime].Some? && data[Merchant] == Some(CanonicalMerchant)
  {
    PendingStatusRejected(ocrText, rx, status);
    CapturedFieldPresent(ocrText, rx, Amount);
    CapturedFieldPresent(ocrText, rx, ReferenceCode);
    CapturedFieldPresent(ocrText, rx, DateTime);
  }

  /**
   * Status is compared after upper-casing: an ASCII capture that spells
   * SUCCESS in any mixture of cases is recorded as captured and passes the
   * status test.
   */
  lemma MixedCaseStatus(ocrText: string, rx: Matchers, status: string)
    requires forall i :: 0 <= i < |status| ==> IsAscii(status[i])
    requires EqualIgnoringAsciiCase(status, "SUCCESS")
    requires rx.search(Status)(SearchText(ocrText, rx)) == Some([Some(status)])
    ensures var data := ExtractedData(ocrText, rx);
      data[Status] == Some(status) && Upper(data[Status].value) == "SUCCESS"
  {
    var text := SearchText(ocrText, rx);
    assert !IsSpace(status[0]) && !IsSpace(status[6]) by {
      assert AsciiUpper(status[0]) == 'S' && AsciiUpper(status[6]) == 'S';
    }
    StripUnchanged(status);
    SingleGroupField(Status, text, rx, status);
    StatusTestIgnoresCase(status);
  }
}
