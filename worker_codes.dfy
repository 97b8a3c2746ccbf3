/**
 * Worker-code generation (`generate_next_worker_code` in app.py): the next code is
 * "NPS-W" followed by one more than the largest number among the existing codes of that
 * form, written with at least four digits. The suffix is read as Python's `int()` reads a
 * string: surrounding whitespace, an optional sign, and decimal digits with single
 * underscores between them.
 */
module WorkerCodes {
  import opened Wrappers
  import Clock

  const Prefix: string := "NPS-W"

  /** The code returned when the directory holds no code at all. */
  const FirstCode: string := "NPS-W0001"

  predicate StartsWith(s: string, p: string) {
    |p| <= |s| && s[..|p|] == p
  }

  /**
   * `s.replace(p, "")`: every non-overlapping occurrence of `p`, scanning left to right,
   * removed.
   */
  function RemoveAll(s: string, p: string): (r: string)
    requires |p| > 0
    ensures |r| <= |s|
    decreases |s|
  {
    if |s| == 0 then []
    else if StartsWith(s, p) then RemoveAll(s[|p|..], p)
    else [s[0]] + RemoveAll(s[1..], p)
  }

  /**
   * The whitespace `int()` strips from an ASCII string: space and the controls 9-13.
   * The separators 28-31 count as space for `str.isspace` but not here, so `int()`
   * rejects a string that holds them.
   */
  predicate IsSpace(c: char) {
    c == ' ' || 9 <= c as int <= 13
  }

  predicate Blank(s: string) {
    forall i :: 0 <= i < |s| ==> IsSpace(s[i])
  }

  function TrimStart(s: string): (r: string)
    ensures |r| <= |s| && (|r| > 0 ==> !IsSpace(r[0]))
  {
    if |s| > 0 && IsSpace(s[0]) then TrimStart(s[1..]) else s
  }

  function TrimEnd(s: string): (r: string)
    ensures |r| <= |s| && (|r| > 0 ==> !IsSpace(r[|r| - 1]))
  {
    if |s| > 0 && IsSpace(s[|s| - 1]) then TrimEnd(s[..|s| - 1]) else s
  }

  /** `TrimStart(s)` is the suffix of `s` left after a blank prefix. */
  lemma {:induction false} TrimStartIsSuffix(s: string)
    ensures var r := TrimStart(s); r == s[|s| - |r|..] && Blank(s[..|s| - |r|])
  {
    if |s| > 0 && IsSpace(s[0]) {
      TrimStartIsSuffix(s[1..]);
      var r := TrimStart(s[1..]);
      assert s[..|s| - |r|] == [s[0]] + s[1..][..|s[1..]| - |r|];
    }
  }

  /** `TrimEnd(s)` is the prefix of `s` left before a blank suffix. */
  lemma {:induction false} TrimEndIsPrefix(s: string)
    ensures var r := TrimEnd(s); r == s[..|r|] && Blank(s[|r|..])
  {
    if |s| > 0 && IsSpace(s[|s| - 1]) {
      TrimEndIsPrefix(s[..|s| - 1]);
      var r := TrimEnd(s[..|s| - 1]);
      assert s[|r|..] == s[..|s| - 1][|r|..] + [s[|s| - 1]];
    }
  }

  /** Leading whitespace before a character that is not whitespace is exactly what is trimmed. */
  lemma {:induction false} TrimStartBlank(lead: string, t: string)
    requires Blank(lead) && (|t| > 0 ==> !IsSpace(t[0]))
    ensures TrimStart(lead + t) == t
  {
    if |lead| > 0 {
      assert (lead + t)[1..] == lead[1..] + t;
      TrimStartBlank(lead[1..], t);
    } else {
      assert lead + t == t;
    }
  }

  /** Trailing whitespace after a character that is not whitespace is exactly what is trimmed. */
  lemma {:induction false} TrimEndBlank(t: string, trail: string)
    requires Blank(trail) && (|t| > 0 ==> !IsSpace(t[|t| - 1]))
    ensures TrimEnd(t + trail) == t
  {
    if |trail| > 0 {
      assert (t + trail)[..|t + trail| - 1] == t + trail[..|trail| - 1];
      TrimEndBlank(t, trail[..|trail| - 1]);
    } else {
      assert t + trail == t;
    }
  }

  /** Decimal digits, with single underscores allowed only between two digits. */
  predicate WellFormedDigits(t: string) {
    && |t| > 0 && Clock.IsDigit(t[0]) && Clock.IsDigit(t[|t| - 1])
    && (forall i :: 0 <= i < |t| ==> Clock.IsDigit(t[i]) || t[i] == '_')
    && (forall i :: 0 <= i < |t| - 1 ==> t[i] == '_' ==> t[i + 1] != '_')
  }

  /** The value of a digit string, underscores skipped. */
  function DigitsValue(t: string): nat
    requires forall i :: 0 <= i < |t| ==> Clock.IsDigit(t[i]) || t[i] == '_'
  {
    if |t| == 0 then 0
    else if t[|t| - 1] == '_' then DigitsValue(t[..|t| - 1])
    else 10 * DigitsValue(t[..|t| - 1]) + Clock.DigitValue(t[|t| - 1])
  }

  /** Unsigned digits. */
  function ParseDigits(t: string): (r: Option<nat>)
    ensures r.Some? <==> WellFormedDigits(t)
  {
    if WellFormedDigits(t) then Some(DigitsValue(t)) else None
  }

  /** `int(s)`: `None` where it raises `ValueError`. */
  function ParseInt(s: string): (r: Option<int>)
    ensures r.Some? ==> |TrimEnd(TrimStart(s))| > 0
  {
    ParseSigned(TrimEnd(TrimStart(s)))
  }

  /** The trimmed string: an optional sign, then unsigned digits. */
  function ParseSigned(t: string): (r: Option<int>)
    ensures r.Some? ==> |t| > 0
  {
    if |t| > 0 && (t[0] == '+' || t[0] == '-') then
      match ParseDigits(t[1..])
      case None => None
      case Some(v) => var n: int := v; Some(if t[0] == '-' then -n else n)
    else
      match ParseDigits(t)
      case None => None
      case Some(v) => Some(v)
  }

  /** `s` is blank `lead`, an optional `sign`, well-formed digits `d` and blank `trail`. */
  predicate IntLayout(s: string, lead: string, sign: string, d: string, trail: string) {
    && s == lead + sign + d + trail
    && Blank(lead) && Blank(trail)
    && (sign == "" || sign == "+" || sign == "-")
    && WellFormedDigits(d)
  }

  /** The value of a signed digit string. */
  function SignedValue(sign: string, d: string): int
    requires forall i :: 0 <= i < |d| ==> Clock.IsDigit(d[i]) || d[i] == '_'
  {
    var n: int := DigitsValue(d);
    if sign == "-" then -n else n
  }

  /** Whitespace around a string that neither starts nor ends with whitespace is all that is trimmed. */
  lemma TrimBoth(lead: string, t: string, trail: string)
    requires Blank(lead) && Blank(trail)
    requires |t| > 0 && !IsSpace(t[0]) && !IsSpace(t[|t| - 1])
    ensures TrimEnd(TrimStart(lead + t + trail)) == t
  {
    assert lead + t + trail == lead + (t + trail);
    TrimStartBlank(lead, t + trail);
    TrimEndBlank(t, trail);
  }

  /** A sign followed by well-formed digits neither starts nor ends with whitespace. */
  lemma SignedEdges(sign: string, d: string)
    requires sign == "" || sign == "+" || sign == "-"
    requires WellFormedDigits(d)
    ensures var t := sign + d; |t| > 0 && !IsSpace(t[0]) && !IsSpace(t[|t| - 1])
  {
    var t := sign + d;
    assert t[|t| - 1] == d[|d| - 1];
    assert t[0] == if sign == "" then d[0] else sign[0];
  }

  /** A sign followed by well-formed digits reads as their signed value. */
  lemma SignedAccepts(sign: string, d: string)
    requires sign == "" || sign == "+" || sign == "-"
    requires WellFormedDigits(d)
    ensures ParseSigned(sign + d) == Some(SignedValue(sign, d))
  {
    var t := sign + d;
    if sign == "" {
      assert t == d;
      assert Clock.IsDigit(t[0]);
    } else {
      assert t[0] == sign[0];
      assert t[1..] == d;
    }
  }

  /** `int()` accepts every string laid out as whitespace, a sign, digits and whitespace. */
  lemma ParseIntAccepts(s: string, lead: string, sign: string, d: string, trail: string)
    requires IntLayout(s, lead, sign, d, trail)
    ensures ParseInt(s) == Some(SignedValue(sign, d))
  {
    var t := sign + d;
    SignedEdges(sign, d);
    assert s == lead + t + trail;
    TrimBoth(lead, t, trail);
    SignedAccepts(sign, d);
  }

  /** What `ParseSigned` accepts is an optional sign followed by well-formed digits. */
  lemma SignedOnly(t: string) returns (sign: string, d: string)
    requires ParseSigned(t).Some?
    ensures t == sign + d && (sign == "" || sign == "+" || sign == "-") && WellFormedDigits(d)
  {
    if t[0] == '+' || t[0] == '-' {
      sign, d := [t[0]], t[1..];
      assert ParseDigits(d).Some?;
    } else {
      sign, d := "", t;
      assert ParseDigits(d).Some?;
    }
  }

  /** A string is its trimmed part between a blank prefix and a blank suffix. */
  lemma TrimmedMiddle(s: string) returns (lead: string, trail: string)
    ensures s == lead + TrimEnd(TrimStart(s)) + trail
    ensures Blank(lead) && Blank(trail)
  {
    var ts := TrimStart(s);
    var t := TrimEnd(ts);
    TrimStartIsSuffix(s);
    TrimEndIsPrefix(ts);
    lead, trail := s[..|s| - |ts|], ts[|t|..];
    assert s == lead + ts && ts == t + trail;
  }

  /** ... and nothing else: whatever `int()` accepts has that layout. */
  lemma ParseIntOnly(s: string)
    ensures ParseInt(s).Some? ==> exists lead, sign, d, trail :: IntLayout(s, lead, sign, d, trail)
  {
    if ParseInt(s).Some? {
      var t := TrimEnd(TrimStart(s));
      var lead, trail := TrimmedMiddle(s);
      var sign, d := SignedOnly(t);
      assert lead + t + trail == lead + sign + d + trail;
      assert IntLayout(s, lead, sign, d, trail);
    }
  }

  /** The number a code contributes: `int(code.replace("NPS-W", ""))` for a code with the prefix. */
  function CodeNumber(code: string): Option<int> {
    if StartsWith(code, Prefix) then ParseInt(RemoveAll(code, Prefix)) else None
  }

  /** `max_num` after scanning `codes`: the largest valid number, or 0 if none is larger. */
  function MaxNumber(codes: seq<string>): (m: int)
    ensures m >= 0
  {
    if |codes| == 0 then 0
    else
      var m := MaxNumber(codes[..|codes| - 1]);
      match CodeNumber(codes[|codes| - 1])
      case None => m
      case Some(n) => if n > m then n else m
  }

  /** The decimal digits of `n`, without leading zeros. */
  function Decimal(n: nat): (s: string)
    ensures |s| > 0 && forall i :: 0 <= i < |s| ==> Clock.IsDigit(s[i])
    ensures n > 0 ==> s[0] != '0'
    ensures |s| > 1 ==> s[0] != '0'
  {
    if n < 10 then [Clock.DigitChar(n)] else Decimal(n / 10) + [Clock.DigitChar(n % 10)]
  }

  function Zeros(k: nat): (s: string)
    ensures |s| == k && forall i :: 0 <= i < k ==> s[i] == '0'
  {
    if k == 0 then [] else Zeros(k - 1) + ['0']
  }

  /** `f"{n:04d}"`: the decimal digits of `n`, zero-padded on the left to four. */
  function Pad4(n: nat): (s: string)
    ensures |s| >= 4 && forall i :: 0 <= i < |s| ==> Clock.IsDigit(s[i])
    ensures |s| == if |Decimal(n)| < 4 then 4 else |Decimal(n)|
    ensures |s| > 4 ==> s[0] != '0'
  {
    var d := Decimal(n);
    if |d| < 4 then Zeros(4 - |d|) + d else d
  }

  function Pow10(k: nat): (p: nat)
    ensures p >= 1
  {
    if k == 0 then 1 else 10 * Pow10(k - 1)
  }

  /** `n` has at most `k` decimal digits exactly when it is below `10^k`. */
  lemma {:induction false} DecimalWidth(n: nat, k: nat)
    requires k >= 1
    ensures |Decimal(n)| <= k <==> n < Pow10(k)
  {
    if n >= 10 {
      if k == 1 {
        assert |Decimal(n)| == |Decimal(n / 10)| + 1;
      } else {
        DecimalWidth(n / 10, k - 1);
        DivBelow(n, Pow10(k - 1));
      }
    } else {
      PowAtLeastTen(k);
    }
  }

  lemma DivBelow(n: nat, p: nat)
    ensures n / 10 < p <==> n < 10 * p
  {
  }

  lemma {:induction false} PowAtLeastTen(k: nat)
    requires k >= 1
    ensures Pow10(k) >= 10
  {
    if k > 1 {
      PowAtLeastTen(k - 1);
    }
  }

  /** `{:04d}` is exactly four digits below 10000 and the plain decimal from there on. */
  lemma Pad4Width(n: nat)
    ensures n < 10000 <==> |Pad4(n)| == 4
    ensures n >= 10000 ==> Pad4(n) == Decimal(n) && Pad4(n)[0] != '0'
  {
    DecimalWidth(n, 4);
    assert Pow10(4) == 10000;
  }

  /** What the generator returns for the codes `codes` (the non-NULL `worker_code` column). */
  function NextCode(codes: seq<string>): string {
    if |codes| == 0 then FirstCode else Prefix + Pad4(MaxNumber(codes) + 1)
  }

  /**
   * The generator's loop: `max_num` starts at 0 and takes the larger of itself and
   * each parsed number; codes without the prefix or with a suffix `int()` rejects are
   * skipped.
   */
  method GenerateNextWorkerCode(codes: seq<string>) returns (code: string)
    ensures code == NextCode(codes)
    ensures |codes| == 0 ==> code == "NPS-W0001"
    ensures |codes| > 0 ==> CodeNumber(code) == Some(MaxNumber(codes) + 1)
    ensures forall j :: 0 <= j < |codes| ==> codes[j] != code
  {
    if |codes| == 0 {
      return FirstCode;
    }
    var maxNum := 0;
    var i := 0;
    while i < |codes|
      invariant 0 <= i <= |codes|
      invariant maxNum == MaxNumber(codes[..i])
    {
      assert codes[..i + 1][..i] == codes[..i];
      var c := codes[i];
      if StartsWith(c, Prefix) {
        var num := ParseInt(RemoveAll(c, Prefix));
        if num.Some? {
          maxNum := if num.value > maxNum then num.value else maxNum;
        }
      }
      i := i + 1;
    }
    assert codes[..|codes|] == codes;
    code := Prefix + Pad4(maxNum + 1);
    NextCodeNumber(codes);
    NextCodeIsFresh(codes);
  }

  /** `MaxNumber` is the maximum: at least every valid number, and 0 or one of them. */
  lemma {:induction false} MaxNumberIsMaximum(codes: seq<string>)
    ensures forall j :: 0 <= j < |codes| && CodeNumber(codes[j]).Some? ==> CodeNumber(codes[j]).value <= MaxNumber(codes)
    ensures MaxNumber(codes) == 0 || exists j :: 0 <= j < |codes| && CodeNumber(codes[j]) == Some(MaxNumber(codes))
  {
    if |codes| > 0 {
      var init := codes[..|codes| - 1];
      MaxNumberIsMaximum(init);
      assert forall j :: 0 <= j < |init| ==> codes[j] == init[j];
    }
  }

  /** A code without the prefix, or whose suffix is not an integer, does not change the result. */
  lemma IgnoredCode(codes: seq<string>, c: string)
    requires |codes| > 0 && CodeNumber(c).None?
    ensures NextCode(codes + [c]) == NextCode(codes)
  {
    assert (codes + [c])[..|codes|] == codes;
  }

  lemma {:induction false} DigitsValueOfDecimal(n: nat)
    ensures DigitsValue(Decimal(n)) == n
  {
    if n >= 10 {
      DigitsValueOfDecimal(n / 10);
      var s := Decimal(n);
      assert s[..|s| - 1] == Decimal(n / 10);
    }
  }

  /** Leading zeros do not change a digit string's value. */
  lemma {:induction false} LeadingZeros(k: nat, t: string)
    requires forall i :: 0 <= i < |t| ==> Clock.IsDigit(t[i])
    ensures DigitsValue(Zeros(k) + t) == DigitsValue(t)
    decreases |t|
  {
    if |t| == 0 {
      assert Zeros(k) + t == Zeros(k);
      ZerosValue(k);
    } else {
      var u := Zeros(k) + t;
      assert u[..|u| - 1] == Zeros(k) + t[..|t| - 1];
      LeadingZeros(k, t[..|t| - 1]);
    }
  }

  lemma {:induction false} ZerosValue(k: nat)
    ensures DigitsValue(Zeros(k)) == 0
  {
    if k > 0 {
      var z := Zeros(k);
      assert z[..k - 1] == Zeros(k - 1);
      ZerosValue(k - 1);
      assert z[k - 1] == '0' && Clock.DigitValue('0') == 0;
      assert DigitsValue(z) == 10 * DigitsValue(z[..k - 1]) + Clock.DigitValue(z[k - 1]);
    }
  }

  /** A string with no 'N' has no occurrence of the prefix to remove. */
  lemma {:induction false} RemoveAllNothing(t: string)
    requires forall i :: 0 <= i < |t| ==> Clock.IsDigit(t[i])
    ensures RemoveAll(t, Prefix) == t
    decreases |t|
  {
    if |t| > 0 {
      assert t[0] != Prefix[0];
      assert !StartsWith(t, Prefix) by {
        if |Prefix| <= |t| {
          assert t[..|Prefix|][0] == t[0];
        }
      }
      RemoveAllNothing(t[1..]);
    }
  }

  /** A non-empty run of digits parses to its value. */
  lemma ParseAllDigits(t: string)
    requires |t| > 0 && forall i :: 0 <= i < |t| ==> Clock.IsDigit(t[i])
    ensures ParseInt(t) == Some(DigitsValue(t))
  {
    assert WellFormedDigits(t);
    assert t == "" + "" + t + "";
    ParseIntAccepts(t, "", "", t, "");
  }

  /** Padding keeps the value. */
  lemma Pad4Value(n: nat)
    ensures DigitsValue(Pad4(n)) == n
  {
    DigitsValueOfDecimal(n);
    if |Decimal(n)| < 4 {
      LeadingZeros(4 - |Decimal(n)|, Decimal(n));
    }
  }

  /** A code made of the prefix and a run of digits reads back as the digits' value. */
  lemma CodeOfDigits(t: string)
    requires |t| > 0 && forall i :: 0 <= i < |t| ==> Clock.IsDigit(t[i])
    ensures CodeNumber(Prefix + t) == Some(DigitsValue(t))
  {
    var code := Prefix + t;
    assert StartsWith(code, Prefix) by {
      assert code[..|Prefix|] == Prefix;
    }
    assert code[|Prefix|..] == t;
    assert RemoveAll(code, Prefix) == RemoveAll(t, Prefix);
    RemoveAllNothing(t);
    ParseAllDigits(t);
  }

  /** A code built from the prefix and a padded number reads back as that number. */
  lemma CodeOfPad4(n: nat)
    ensures CodeNumber(Prefix + Pad4(n)) == Some(n)
  {
    CodeOfDigits(Pad4(n));
    Pad4Value(n);
  }

  /**
   * The generated code is itself a valid code whose number is one more than the
   * largest existing number.
   */
  lemma NextCodeNumber(codes: seq<string>)
    requires |codes| > 0
    ensures CodeNumber(NextCode(codes)) == Some(MaxNumber(codes) + 1)
  {
    CodeOfPad4(MaxNumber(codes) + 1);
  }

  /** The generated number exceeds the number of every valid existing code, so the code is new. */
  lemma NextCodeIsFresh(codes: seq<string>)
    requires |codes| > 0
    ensures CodeNumber(NextCode(codes)).Some?
    ensures forall j :: 0 <= j < |codes| && CodeNumber(codes[j]).Some? ==>
      CodeNumber(codes[j]).value < CodeNumber(NextCode(codes)).value
    ensures forall j :: 0 <= j < |codes| ==> codes[j] != NextCode(codes)
  {
    MaxNumberIsMaximum(codes);
    NextCodeNumber(codes);
  }

  /** Only malformed or foreign codes: numbering starts again at 1. */
  lemma ExampleOnlyRejected()
    ensures NextCode(["OLD-7", "NPS-Wx"]) == "NPS-W0001"
  {
    RejectedExamples();
    var bad := ["OLD-7", "NPS-Wx"];
    assert bad[..1] == ["OLD-7"] && bad[..1][..0] == [];
    assert MaxNumber(bad) == 0;
    assert Pad4(1) == "0001";
  }

  /** The largest number wins, wherever it stands. */
  lemma ExampleLargestWins(codes: seq<string>)
    requires codes == ["NPS-W0007", "NPS-W0012", "NPS-W0003"]
    ensures NextCode(codes) == "NPS-W0013"
  {
    Code7();
    Code12();
    Code3();
    assert codes[..1] == ["NPS-W0007"] && codes[..1][..0] == [];
    assert MaxNumber(codes[..1]) == 7;
    assert codes[..2] == ["NPS-W0007", "NPS-W0012"] && codes[..2][..1] == codes[..1];
    assert MaxNumber(codes[..2]) == 12;
    assert MaxNumber(codes) == 12;
    Code13();
  }

  lemma Code13()
    ensures Prefix + Pad4(13) == "NPS-W0013"
  {
    assert Decimal(13) == "13";
    assert Pad4(13) == "0013";
  }

  lemma RejectedExamples()
    ensures CodeNumber("OLD-7") == None
    ensures CodeNumber("NPS-Wx") == None
  {
    assert !StartsWith("OLD-7", Prefix);
    assert RemoveAll("NPS-Wx", Prefix) == "x";
  }

  lemma Code7()
    ensures CodeNumber("NPS-W0007") == Some(7)
  {
    assert Pad4(7) == "0007";
    CodeOfPad4(7);
    assert Prefix + Pad4(7) == "NPS-W0007";
  }

  lemma Code12()
    ensures CodeNumber("NPS-W0012") == Some(12)
  {
    assert Pad4(12) == "0012";
    CodeOfPad4(12);
    assert Prefix + Pad4(12) == "NPS-W0012";
  }

  lemma Code3()
    ensures CodeNumber("NPS-W0003") == Some(3)
  {
    assert Pad4(3) == "0003";
    CodeOfPad4(3);
    assert Prefix + Pad4(3) == "NPS-W0003";
  }

  /** Appending a character to a digit string: an underscore keeps the value, a digit shifts it in. */
  lemma DigitsValueSnoc(t: string, c: char)
    requires forall i :: 0 <= i < |t| ==> Clock.IsDigit(t[i]) || t[i] == '_'
    requires Clock.IsDigit(c) || c == '_'
    ensures DigitsValue(t + [c]) == if c == '_' then DigitsValue(t) else 10 * DigitsValue(t) + Clock.DigitValue(c)
  {
    assert (t + [c])[..|t|] == t;
  }

  /** Surrounding whitespace is stripped. */
  lemma ExampleSpaced(s: string)
    requires s == " 12\n"
    ensures ParseInt(s) == Some(12)
  {
    assert TrimStart(s) == s[1..] == "12\n";
    assert TrimEnd("12\n") == "12";
    ParseAllDigits("12");
    DigitsValueSnoc("1", '2');
    assert "1" + ['2'] == "12";
  }

  /** Single underscores between digits are skipped. */
  lemma ExampleUnderscore(s: string)
    requires s == "1_000"
    ensures ParseInt(s) == Some(1000)
  {
    assert TrimStart(s) == s && TrimEnd(s) == s;
    assert WellFormedDigits(s);
    DigitsValueSnoc("1", '_');
    DigitsValueSnoc("1_", '0');
    DigitsValueSnoc("1_0", '0');
    DigitsValueSnoc("1_00", '0');
    assert "1" + ['_'] == "1_" && "1_" + ['0'] == "1_0" && "1_0" + ['0'] == "1_00" && "1_00" + ['0'] == s;
  }

  /** A leading minus negates; doubled, leading or lone signs and underscores are rejected. */
  lemma ExampleRejectedSuffixes()
    ensures ParseInt("-3") == Some(-3)
    ensures ParseInt("1__0") == None
    ensures ParseInt("_1") == None
    ensures ParseInt("") == None
    ensures ParseInt("+") == None
    ensures ParseInt("\U{1C}9") == None
  {
    assert !WellFormedDigits("1__0") by {
      assert "1__0"[1] == '_' && "1__0"[2] == '_';
    }
  }

  /** A suffix led by a file separator (0x1C) is no number, so the code is skipped. */
  lemma ExampleSeparatorSkipped()
    ensures NextCode(["NPS-W\U{1C}9"]) == FirstCode
  {
    SeparatorCode();
    var codes := ["NPS-W\U{1C}9"];
    assert codes[..0] == [];
    assert MaxNumber(codes) == 0;
    Code1();
  }

  lemma SeparatorCode()
    ensures CodeNumber("NPS-W\U{1C}9") == None
  {
    var c := "NPS-W\U{1C}9";
    assert StartsWith(c, Prefix) by {
      assert c[..|Prefix|] == Prefix;
    }
    assert RemoveAll(c, Prefix) == "\U{1C}9" by {
      assert c[|Prefix|..] == "\U{1C}9";
      assert RemoveAll("9", Prefix) == "9";
    }
    ExampleRejectedSuffixes();
  }

  lemma Code1()
    ensures Prefix + Pad4(1) == FirstCode
  {
    assert Decimal(1) == "1";
    assert Pad4(1) == "0001";
  }
}
