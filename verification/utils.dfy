/** `src/utils.py`: splitting the multi-URL text field. */
module Utils {
  import opened Errors
  import opened Strings
  import opened Constants

  /** `separate_input_string(x, sep)`, that is `x.split(sep)`: an empty
      separator raises `ValueError`; otherwise the parts join back to `x`, none
      of them contains `sep`, and there is one part more than `sep` occurs. */
  function SeparateInputString(x: string, sep: string): (r: Result<seq<string>>)
    ensures sep == "" <==> r == Err(ValueError)
    ensures r.Ok? ==> Join(r.value, sep) == x
    ensures r.Ok? ==> forall k :: 0 <= k < |r.value| ==> !Contains(r.value[k], sep)
    ensures r.Ok? ==> |r.value| == Count(x, sep) + 1
  {
    if sep == "" then Err(ValueError)
    else
      JoinSplit(x, sep);
      SplitPartsFree(x, sep);
      SplitCount(x, sep);
      Ok(Split(x, sep))
  }

  /** For a non-empty separator the utility is plain `str.split`. */
  lemma SeparateIsSplit(x: string, sep: string)
    requires sep != ""
    ensures SeparateInputString(x, sep) == Ok(Split(x, sep))
  {
  }

  /** The utility's tests with the application's separator `$`: the empty
      string and a string without `$` come back whole. */
  lemma SeparateWithoutSeparator()
    ensures SeparateInputString("", SEP) == Ok([""])
    ensures SeparateInputString("URL1", SEP) == Ok(["URL1"])
  {
    SeparateWithoutDollar("");
    assert '$' !in "URL1";
    SeparateWithoutDollar("URL1");
  }

  /** A string without `$` comes back as the only part. */
  lemma SeparateWithoutDollar(x: string)
    requires '$' !in x
    ensures SeparateInputString(x, SEP) == Ok([x])
  {
    SeparateIsSplit(x, SEP);
    SplitCharNone(x, '$');
  }

  /** Splitting `a$b` where neither part holds `$`. */
  lemma SplitTwoParts(a: string, b: string)
    requires '$' !in a && '$' !in b
    ensures Split(a + SEP + b, SEP) == [a, b]
  {
    assert a + SEP + b == a + ['$'] + b;
    SplitCharNone(b, '$');
    SplitCharCons(a, '$', b);
  }

  /** Splitting `a$b$c` where no part holds `$`. */
  lemma SplitThreeParts(a: string, b: string, c: string)
    requires '$' !in a && '$' !in b && '$' !in c
    ensures Split(a + SEP + b + SEP + c, SEP) == [a, b, c]
  {
    var y := b + SEP + c;
    assert a + SEP + b + SEP + c == a + ['$'] + y;
    assert y == b + ['$'] + c;
    SplitCharNone(c, '$');
    SplitCharCons(b, '$', c);
    SplitCharCons(a, '$', y);
    assert Split(y, SEP) == [b, c];
  }

  /** A leading `$` splits off an empty first part. */
  lemma SplitLeadingSeparator(y: string)
    ensures Split(SEP + y, SEP) == [""] + Split(y, SEP)
  {
    assert SEP + y == "" + ['$'] + y;
    SplitCharCons("", '$', y);
  }

  /** Splitting `a$$$$b` where neither `a` nor `b` holds `$`. */
  lemma SplitConsecutiveParts(a: string, b: string)
    requires '$' !in a && '$' !in b
    ensures Split(a + SEP + SEP + SEP + SEP + b, SEP) == [a, "", "", "", b]
  {
    var y3 := SEP + (SEP + (SEP + b));
    assert a + SEP + SEP + SEP + SEP + b == a + ['$'] + y3;
    SplitCharNone(b, '$');
    SplitLeadingSeparator(b);
    SplitLeadingSeparator(SEP + b);
    SplitLeadingSeparator(SEP + (SEP + b));
    assert Split(y3, SEP) == ["", "", "", b];
    SplitCharCons(a, '$', y3);
  }

  /** The utility's tests: two URLs separated by `$` come back in order. */
  lemma SeparateTwoUrls()
    ensures SeparateInputString("URL1$URL2", SEP) == Ok(["URL1", "URL2"])
  {
    SplitTwoParts("URL1", "URL2");
    assert "URL1$URL2" == "URL1" + SEP + "URL2";
    SeparateIsSplit("URL1$URL2", SEP);
  }

  /** The utility's tests: three URLs separated by `$` come back in order. */
  lemma SeparateThreeUrls()
    ensures SeparateInputString("URL1$URL2$URL3", SEP) == Ok(["URL1", "URL2", "URL3"])
  {
    SplitThreeParts("URL1", "URL2", "URL3");
    assert "URL1$URL2$URL3" == "URL1" + SEP + "URL2" + SEP + "URL3";
    SeparateIsSplit("URL1$URL2$URL3", SEP);
  }

  /** The utility's tests: consecutive separators give empty parts. */
  lemma SeparateConsecutive()
    ensures SeparateInputString("URL1$$$$URL2", SEP) == Ok(["URL1", "", "", "", "URL2"])
  {
    SplitConsecutiveParts("URL1", "URL2");
    assert "URL1$$$$URL2" == "URL1" + SEP + SEP + SEP + SEP + "URL2";
    SeparateIsSplit("URL1$$$$URL2", SEP);
  }

  /** The utility's tests: an empty separator raises `ValueError`. */
  lemma SeparateEmptySeparator()
    ensures SeparateInputString("URL1$URL2", "") == Err(ValueError)
  {
  }
}
