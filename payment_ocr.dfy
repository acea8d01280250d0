/**
 * The payment-receipt validator: from the OCR text of a receipt it extracts
 * status, amount, reference code and date/time with one regular expression
 * each, detects the merchant, and decides whether the receipt shows a
 * successful payment to the expected merchant.
 *
 * The regular expressions are known only by what they answer (`Matchers`);
 * the Greek-letter normalisation, first-group selection, stripping, the
 * merchant mapping and the validity test are modelled exactly.
 */
module PaymentOcr {
  import opened Wrappers
  import opened Strings

  // ---------------------------------------------------------------------
  // Data
  // ---------------------------------------------------------------------

  /** The keys of the extracted record. */
  datatype Field = Status | Amount | ReferenceCode | DateTime | Merchant

  /** The fields found by a pattern search, in the order they are searched. */
  const PatternFields: seq<Field> := [Status, Amount, ReferenceCode, DateTime]

  /** The only merchant value the record can hold. */
  const CanonicalMerchant: string := "TEAM BHARIYA INC PVT.LTD"

  /** The capture groups of a match; an unmatched group is None. */
  type Groups = seq<Option<string>>

  /**
   * The regular expressions, as functions: `clean` removes markup and
   * confidence annotations, `search(f)` gives the groups of the first
   * case-insensitive match of field `f`'s pattern (None when there is no
   * match), `merchant` says whether the merchant pattern matches.
   */
  datatype Matchers = Matchers(
    clean: string -> string,
    search: Field -> string -> Option<Groups>,
    merchant: string -> bool)

  /** The extracted record: each key maps to a value or to None. */
  type Record = map<Field, Option<string>>

  // ---------------------------------------------------------------------
  // Normalisation of confusable Greek letters
  // ---------------------------------------------------------------------

  const LatinA: char := 'A'
  const GreekAlpha: char := '\U{0391}'
  const GreekMu: char := '\U{039C}'

  /** Latin A + Greek Mu, then Greek Alpha + Greek Mu, each replaced by "AM". */
  function Normalize(s: string): string {
    Replace(Replace(s, [LatinA, GreekMu], "AM"), [GreekAlpha, GreekMu], "AM")
  }

  /**
   * The character normalisation leaves at index `i`: a Greek Alpha before
   * a Greek Mu becomes A, a Greek Mu after an A or a Greek Alpha becomes M,
   * and every other character is kept.
   */
  function NormalizedAt(s: string, i: int): char
    requires 0 <= i < |s|
  {
    if s[i] == GreekAlpha && i + 1 < |s| && s[i + 1] == GreekMu then 'A'
    else if s[i] == GreekMu && 0 < i && (s[i - 1] == LatinA || s[i - 1] == GreekAlpha) then 'M'
    else s[i]
  }

  /** Normalisation keeps the length and rewrites exactly as `NormalizedAt` says. */
  lemma NormalizePointwise(s: string)
    ensures |Normalize(s)| == |s|
    ensures forall i :: 0 <= i < |s| ==> Normalize(s)[i] == NormalizedAt(s, i)
  {
    var t := Replace(s, [LatinA, GreekMu], "AM");
    ReplacePairPointwise(s, LatinA, GreekMu, 'A', 'M');
    ReplacePairPointwise(t, GreekAlpha, GreekMu, 'A', 'M');
    var r := Normalize(s);
    forall i | 0 <= i < |s| ensures r[i] == NormalizedAt(s, i) {
      assert t[i] == PairReplacedAt(s, LatinA, GreekMu, 'A', 'M', i);
      if i + 1 < |s| { assert t[i + 1] == PairReplacedAt(s, LatinA, GreekMu, 'A', 'M', i + 1); }
      if 0 < i { assert t[i - 1] == PairReplacedAt(s, LatinA, GreekMu, 'A', 'M', i - 1); }
    }
  }

  /** Normalisation changes only Greek Alphas and Greek Mus. */
  lemma NormalizeKeepsOthers(s: string)
    ensures forall i :: 0 <= i < |s| && s[i] != GreekAlpha && s[i] != GreekMu ==> Normalize(s)[i] == s[i]
  {
    NormalizePointwise(s);
  }

  /** After normalisation no confusable pair is left. */
  lemma NormalizeNoConfusable(s: string)
    ensures var r := Normalize(s);
      forall i :: 0 < i < |r| && r[i] == GreekMu ==> r[i - 1] != LatinA && r[i - 1] != GreekAlpha
  {
    NormalizePointwise(s);
  }

  /** Normalising twice changes nothing more. */
  lemma NormalizeIdempotent(s: string)
    ensures Normalize(Normalize(s)) == Normalize(s)
  {
    var r := Normalize(s);
    NormalizePointwise(s);
    NormalizePointwise(r);
    NormalizeNoConfusable(s);
    forall i | 0 <= i < |r| ensures NormalizedAt(r, i) == r[i] {
      assert !(r[i] == GreekAlpha && i + 1 < |r| && r[i + 1] == GreekMu);
    }
  }

  /** The text the patterns are searched in. */
  function SearchText(ocrText: string, rx: Matchers): string {
    Normalize(rx.clean(ocrText))
  }

  // ---------------------------------------------------------------------
  // Field values
  // ---------------------------------------------------------------------

  /** Python truthiness of a group: present and non-empty. */
  predicate Truthy(g: Option<string>) {
    g.Some? && g.value != []
  }

  /** Group `j` is the first truthy group. */
  ghost predicate IsFirstTruthy(groups: Groups, j: int) {
    0 <= j < |groups| && Truthy(groups[j]) && forall k :: 0 <= k < j ==> !Truthy(groups[k])
  }

  /** The first truthy group, or None when there is none. */
  function FirstNonEmpty(groups: Groups): (r: Option<string>)
    ensures r.Some? <==> exists j :: 0 <= j < |groups| && Truthy(groups[j])
    ensures r.Some? ==> exists j :: IsFirstTruthy(groups, j) && groups[j] == r
    decreases |groups|
  {
    if groups == [] then None
    else if Truthy(groups[0]) then
      assert IsFirstTruthy(groups, 0);
      groups[0]
    else
      var rest := groups[1..];
      var r := FirstNonEmpty(rest);
      assert forall j :: 0 <= j < |rest| ==> rest[j] == groups[j + 1];
      assert forall j :: IsFirstTruthy(rest, j) ==> IsFirstTruthy(groups, j + 1);
      r
  }

  /** The pattern for `f` matches and one of the match's groups is truthy. */
  ghost predicate Captures(f: Field, text: string, rx: Matchers) {
    rx.search(f)(text).Some? &&
    exists j :: 0 <= j < |rx.search(f)(text).value| && Truthy(rx.search(f)(text).value[j])
  }

  /**
   * The value recorded for a pattern field: the first truthy group of the
   * first match, stripped; None when there is no match or no truthy group.
   */
  function FieldValue(f: Field, text: string, rx: Matchers): Option<string> {
    match rx.search(f)(text)
    case None => None
    case Some(groups) =>
      match FirstNonEmpty(groups)
      case None => None
      case Some(v) => Some(Strip(v))
  }

  /**
   * A pattern field has a value exactly when its pattern matches and some
   * group of the match is truthy, and the value is then the first truthy
   * group, stripped.
   */
  lemma FieldValueFirstGroup(f: Field, text: string, rx: Matchers)
    ensures FieldValue(f, text, rx).Some? <==> Captures(f, text, rx)
    ensures FieldValue(f, text, rx).Some? ==>
      exists j :: IsFirstTruthy(rx.search(f)(text).value, j) &&
        FieldValue(f, text, rx).value == Strip(rx.search(f)(text).value[j].value)
  {
  }

  /** The merchant value: the canonical name when the pattern matches, else None. */
  function MerchantValue(text: string, rx: Matchers): (r: Option<string>)
    ensures r == None || r == Some(CanonicalMerchant)
    ensures r.Some? <==> rx.merchant(text)
  {
    if rx.merchant(text) then Some(CanonicalMerchant) else None
  }

  /** The record the validator returns for `ocrText`. */
  function ExtractedData(ocrText: string, rx: Matchers): (data: Record)
    ensures data.Keys == {Status, Amount, ReferenceCode, DateTime, Merchant}
    ensures data[Merchant] == None || data[Merchant] == Some(CanonicalMerchant)
    ensures forall f :: f in PatternFields ==> data[f] == FieldValue(f, SearchText(ocrText, rx), rx)
  {
    var text := SearchText(ocrText, rx);
    map[Status := FieldValue(Status, text, rx),
        Amount := FieldValue(Amount, text, rx),
        ReferenceCode := FieldValue(ReferenceCode, text, rx),
        DateTime := FieldValue(DateTime, text, rx),
        Merchant := MerchantValue(text, rx)]
  }

  // ---------------------------------------------------------------------
  // Validity
  // ---------------------------------------------------------------------

  /** Every key the validity test reads is present. */
  predicate HasAllFields(data: Record) {
    Status in data && Amount in data && ReferenceCode in data && DateTime in data && Merchant in data
  }

  /**
   * The final test: status present and upper-casing to SUCCESS, amount,
   * reference code and date/time present, merchant the canonical name.
   */
  predicate IsValid(data: Record)
    requires HasAllFields(data)
  {
    data[Status].Some? && Upper(data[Status].value) == "SUCCESS" &&
    data[Amount].Some? &&
    data[ReferenceCode].Some? &&
    data[DateTime].Some? &&
    data[Merchant] == Some(CanonicalMerchant)
  }

  /**
   * On ASCII text the status test is a case-insensitive comparison with
   * SUCCESS.
   */
  lemma StatusTestIgnoresCase(status: string)
    requires forall i :: 0 <= i < |status| ==> IsAscii(status[i])
    ensures Upper(status) == "SUCCESS" <==> EqualIgnoringAsciiCase(status, "SUCCESS")
  {
    SuccessIsUpperCase();
    UpperEqualsWord(status, "SUCCESS");
  }

  lemma SuccessIsUpperCase()
    ensures forall c :: c in "SUCCESS" ==> !('a' <= c <= 'z')
  {
  }

  /** The first truthy group of the status match, stripped, upper-cases to SUCCESS. */
  ghost predicate StatusSucceeds(text: string, rx: Matchers) {
    rx.search(Status)(text).Some? &&
    exists j :: IsFirstTruthy(rx.search(Status)(text).value, j) &&
      Upper(Strip(rx.search(Status)(text).value[j].value)) == "SUCCESS"
  }

  /** Only one group can be the first truthy one. */
  lemma FirstTruthyUnique(groups: Groups, j: int, k: int)
    requires IsFirstTruthy(groups, j) && IsFirstTruthy(groups, k)
    ensures j == k
  {
  }

  /**
   * A receipt is valid exactly when, in the normalised text, the status
   * pattern's first truthy group strips and upper-cases to SUCCESS, the
   * amount, reference-code and date/time patterns each capture something,
   * and the merchant pattern matches.
   */
  lemma ValidIff(ocrText: string, rx: Matchers)
    ensures var text := SearchText(ocrText, rx);
      IsValid(ExtractedData(ocrText, rx)) <==>
        StatusSucceeds(text, rx) &&
        Captures(Amount, text, rx) && Captures(ReferenceCode, text, rx) && Captures(DateTime, text, rx) &&
        rx.merchant(text)
  {
    var text := SearchText(ocrText, rx);
    var data := ExtractedData(ocrText, rx);
    assert data[Status] == FieldValue(Status, text, rx);
    assert data[Amount] == FieldValue(Amount, text, rx);
    assert data[ReferenceCode] == FieldValue(ReferenceCode, text, rx);
    assert data[DateTime] == FieldValue(DateTime, text, rx);
    FieldValueFirstGroup(Status, text, rx);
    FieldValueFirstGroup(Amount, text, rx);
    FieldValueFirstGroup(ReferenceCode, text, rx);
    FieldValueFirstGroup(DateTime, text, rx);
    if StatusSucceeds(text, rx) {
      var groups := rx.search(Status)(text).value;
      var j :| IsFirstTruthy(groups, j) && Upper(Strip(groups[j].value)) == "SUCCESS";
      var k :| IsFirstTruthy(groups, k) && data[Status].value == Strip(groups[k].value);
      FirstTruthyUnique(groups, j, k);
    }
    if data[Status].Some? && Upper(data[Status].value) == "SUCCESS" {
      var groups := rx.search(Status)(text).value;
      var k :| IsFirstTruthy(groups, k) && data[Status].value == Strip(groups[k].value);
      assert StatusSucceeds(text, rx);
    }
  }

  // ---------------------------------------------------------------------
  // The validator
  // ---------------------------------------------------------------------

  /** A record holding every pattern field's value, plus the merchant, is the extracted record. */
  lemma FilledRecord(data: Record, ocrText: string, rx: Matchers)
    requires forall f :: f in data <==> f in PatternFields
    requires forall f :: f in data ==> data[f] == FieldValue(f, SearchText(ocrText, rx), rx)
    ensures data[Merchant := MerchantValue(SearchText(ocrText, rx), rx)] == ExtractedData(ocrText, rx)
  {
    var full := data[Merchant := MerchantValue(SearchText(ocrText, rx), rx)];
    var spec := ExtractedData(ocrText, rx);
    assert full.Keys == spec.Keys;
  }

  /**
   * `verify_payment_ocr`: clean and normalise the text, fill the record
   * one pattern field at a time, add the merchant, and test validity.
   */
  method VerifyPaymentOcr(ocrText: string, rx: Matchers) returns (isValid: bool, data: Record)
    ensures data == ExtractedData(ocrText, rx)
    ensures isValid == IsValid(ExtractedData(ocrText, rx))
  {
    var text := rx.clean(ocrText);
    text := Normalize(text);
    data := map[];
    for i := 0 to |PatternFields|
      invariant forall f :: f in data <==> f in PatternFields[..i]
      invariant forall f :: f in data ==> data[f] == FieldValue(f, text, rx)
    {
      var key := PatternFields[i];
      var found := rx.search(key)(text);
      var value := if found.Some? then FirstNonEmpty(found.value) else None;
      data := data[key := if value.Some? then Some(Strip(value.value)) else None];
    }
    assert PatternFields[..|PatternFields|] == PatternFields;
    FilledRecord(data, ocrText, rx);
    data := data[Merchant := if rx.merchant(text) then Some(CanonicalMerchant) else None];
    isValid := IsValid(data);
  }
}
