/** `BaseJsoupScraper.parsePrice`: turns a displayed price such as
    "15.900 Gs" into a number of guaraníes. */
module Prices {
  import opened Wrappers
  import opened Text
  import opened Products

  /** `raw.replace(".", "").replace(",", "")`: thousands separators go
      before any digit is looked at. */
  function Clean(raw: string): (c: string)
    ensures '.' !in c && ',' !in c
    ensures forall d | d in c :: d in raw
  {
    Without(Without(raw, '.'), ',')
  }

  /** The first maximal run of ASCII digits of the cleaned text, read as a
      `long`; 0 for a null text, for a text without digits, and for a run too
      large for a `long` (the `NumberFormatException` is swallowed). */
  function ParsePrice(raw: Option<string>): (r: Price)
    ensures raw.None? ==> r == 0
  {
    match raw
    case None => 0
    case Some(s) => FirstRunPrice(Clean(s))
  }

  /** The `Pattern.compile("(\d+)")` search and `Long.parseLong` step on an
      already cleaned text. */
  function FirstRunPrice(cleaned: string): Price
  {
    var i := SkipNonDigits(cleaned, 0);
    if i == |cleaned| then 0
    else
      var run := cleaned[i..SkipDigits(cleaned, i)];
      assert AllDigits(run);
      var v := DigitsValue(run);
      if v <= MAX_LONG then v else 0
  }

  /** Splitting the cleaned text into a digit-free prefix, a maximal digit
      run and the rest determines the price: the run's value, or 0 when it
      exceeds `Long.MAX_VALUE`. Later digits never matter. */
  lemma ParsePriceFirstRun(s: string, pre: string, run: string, post: string)
    requires Clean(s) == pre + run + post
    requires NoDigits(pre)
    requires |run| > 0 && AllDigits(run)
    requires post == [] || !IsAsciiDigit(post[0])
    ensures ParsePrice(Some(s)) == (if DigitsValue(run) <= MAX_LONG then DigitsValue(run) else 0)
  {
    FirstRunPriceSplit(Clean(s), pre, run, post);
  }

  lemma FirstRunPriceSplit(cleaned: string, pre: string, run: string, post: string)
    requires cleaned == pre + run + post
    requires NoDigits(pre)
    requires |run| > 0 && AllDigits(run)
    requires post == [] || !IsAsciiDigit(post[0])
    ensures FirstRunPrice(cleaned) == (if DigitsValue(run) <= MAX_LONG then DigitsValue(run) else 0)
  {
    assert forall k | 0 <= k < |pre| :: cleaned[k] == pre[k];
    assert forall k | 0 <= k < |run| :: cleaned[|pre| + k] == run[k];
    assert cleaned[|pre|] == run[0];
    var i := SkipNonDigits(cleaned, 0);
    assert i == |pre|;
    var j := SkipDigits(cleaned, i);
    if |pre| + |run| < |cleaned| {
      assert cleaned[|pre| + |run|] == post[0];
    }
    assert j == |pre| + |run|;
    assert cleaned[i..j] == run;
  }

  /** A text without any digit is priced 0, never an error. */
  lemma ParsePriceNoDigit(s: string)
    requires NoDigits(s)
    ensures ParsePrice(Some(s)) == 0
  {
    var cleaned := Clean(s);
    forall k | 0 <= k < |cleaned|
      ensures !IsAsciiDigit(cleaned[k])
    {
      assert cleaned[k] in s;
    }
  }

  lemma DigitsValueStep(ds: string, d: char)
    requires AllDigits(ds) && IsAsciiDigit(d)
    ensures AllDigits(ds + [d])
    ensures DigitsValue(ds + [d]) == 10 * DigitsValue(ds) + DigitValue(d)
  {
    assert (ds + [d])[..|ds|] == ds;
  }

  /** Worked examples: separators vanish, only the first run counts. */
  lemma ParsePriceSeparatorExample()
    ensures ParsePrice(Some("15.900 Gs")) == 15900
  {
    CleanSeparatorExample();
    ValueOf15900();
    ParsePriceFirstRun("15.900 Gs", "", "15900", " Gs");
  }

  lemma ValueOf15900()
    ensures AllDigits("15900") && DigitsValue("15900") == 15900
  {
    DigitsValueStep("1", '5');
    assert "1" + ['5'] == "15";
    DigitsValueStep("15", '9');
    assert "15" + ['9'] == "159";
    DigitsValueStep("159", '0');
    assert "159" + ['0'] == "1590";
    DigitsValueStep("1590", '0');
    assert "1590" + ['0'] == "15900";
  }

  lemma CleanSeparatorExample()
    ensures Clean("15.900 Gs") == "15900 Gs"
  {
    calc {
      Without("15.900 Gs", '.');
      { assert "15.900 Gs" == "15" + ".900 Gs"; }
      Without("15" + ".900 Gs", '.');
      { WithoutAppend("15", ".900 Gs", '.'); }
      Without("15", '.') + Without(".900 Gs", '.');
      { WithoutAbsent("15", '.'); }
      "15" + Without(".900 Gs", '.');
      { assert Without(".900 Gs", '.') == Without("900 Gs", '.'); }
      "15" + Without("900 Gs", '.');
      { WithoutAbsent("900 Gs", '.'); }
      "15" + "900 Gs";
    }
    WithoutAbsent("15900 Gs", ',');
  }

  lemma ParsePriceCommaExample()
    ensures ParsePrice(Some("1,250")) == 1250
  {
    WithoutAbsent("1,250", '.');
    calc {
      Without("1,250", ',');
      { assert "1,250" == "1" + ",250"; }
      Without("1" + ",250", ',');
      { WithoutAppend("1", ",250", ','); }
      Without("1", ',') + Without(",250", ',');
      { WithoutAbsent("1", ','); }
      "1" + Without(",250", ',');
      { assert Without(",250", ',') == Without("250", ','); }
      "1" + Without("250", ',');
      { WithoutAbsent("250", ','); }
      "1" + "250";
    }
    assert Clean("1,250") == "1250";
    DigitsValueStep("1", '2');
    assert "1" + ['2'] == "12";
    DigitsValueStep("12", '5');
    assert "12" + ['5'] == "125";
    DigitsValueStep("125", '0');
    assert "125" + ['0'] == "1250";
    ParsePriceFirstRun("1,250", "", "1250", "");
  }

  lemma ParsePriceFirstRunExample()
    ensures ParsePrice(Some("2 x 300")) == 2
  {
    WithoutAbsent("2 x 300", '.');
    WithoutAbsent("2 x 300", ',');
    assert Clean("2 x 300") == "2 x 300";
    ParsePriceFirstRun("2 x 300", "", "2", " x 300");
  }
}
