/** The student identifier ("matricule"): the organisation prefix `K48`, a batch
    code and the student's number within the batch, written one after the other
    with no separator (`K48B1144`). Generation, the two anchored regular
    expressions that validate and parse such text, and the counter rule that
    picks the next number. */
module Matricule {

  import opened Wrappers
  import opened Text

  const Prefix := "K48"

  datatype MatriculeMeta = MatriculeMeta(batch: string, studentId: int)

  datatype ParsedMatricule = ParsedMatricule(prefix: string, batch: string, studentId: int)

  /** The template literal `K48${batch}${studentId}`. */
  function GenerateMatricule(meta: MatriculeMeta): (r: string)
    ensures |r| > |Prefix| + |meta.batch| && r[..|Prefix| + |meta.batch|] == Prefix + meta.batch
    ensures meta.studentId >= 0 ==> AllDigits(r[|Prefix| + |meta.batch|..])
  {
    Prefix + meta.batch + IntToString(meta.studentId)
  }

  // ---------------------------------------------------------------------
  // The language of /^K48[A-Z0-9]+\d+$/ and of /^K48([A-Z0-9]+?)(\d+)$/

  /** `s` matches the pattern with the `[A-Z0-9]+` part ending, and the `\d+`
      part starting, at index `k`. */
  predicate SplitsAt(s: string, k: int)
  {
    4 <= k < |s| && s[..3] == Prefix && AllBatchChars(s[3..k]) && AllDigits(s[k..])
  }

  /** The language both regular expressions describe: some split point exists. */
  ghost predicate InMatriculeLanguage(s: string)
  {
    exists k :: SplitsAt(s, k)
  }

  /** `isValidMatricule`: the prefix, then at least two more characters, all of
      them in `[A-Z0-9]`, the last one a digit. */
  predicate IsValidMatricule(s: string)
  {
    |s| >= 5 && s[..3] == Prefix && AllBatchChars(s[3..]) && IsDigit(s[|s| - 1])
  }

  lemma IsValidMatriculeMatchesRegex(s: string)
    ensures IsValidMatricule(s) <==> InMatriculeLanguage(s)
  {
    if IsValidMatricule(s) {
      assert SplitsAt(s, |s| - 1);
    }
    if InMatriculeLanguage(s) {
      var k :| SplitsAt(s, k);
      forall i | 3 <= i < |s| ensures IsBatchChar(s[i]) {
        if i < k { assert s[3..k][i - 3] == s[i]; } else { assert s[k..][i - k] == s[i]; }
      }
      assert s[k..][|s| - 1 - k] == s[|s| - 1];
    }
  }

  /** Where the maximal run of digits at the end of `s` starts. */
  function DigitRunStart(s: string): (j: nat)
    ensures j <= |s|
    ensures AllDigits(s[j..])
    ensures j > 0 ==> !IsDigit(s[j - 1])
    decreases |s|
  {
    if |s| > 0 && IsDigit(s[|s| - 1]) then
      var j := DigitRunStart(s[..|s| - 1]);
      assert s[j..] == s[..|s| - 1][j..] + [s[|s| - 1]];
      j
    else |s|
  }

  /** The run start is the least index from which everything is a digit. */
  lemma DigitRunStartLeast(s: string, i: nat)
    requires i <= |s| && AllDigits(s[i..])
    ensures DigitRunStart(s) <= i
  {
  }

  lemma DigitRunStartIs(s: string, i: nat)
    requires i <= |s| && AllDigits(s[i..])
    requires i > 0 ==> !IsDigit(s[i - 1])
    ensures DigitRunStart(s) == i
  {
    DigitRunStartLeast(s, i);
  }

  lemma AllDigitsSuffix(s: string, i: nat, j: nat)
    requires i <= j <= |s| && AllDigits(s[i..])
    ensures AllDigits(s[j..])
  {
    assert s[j..] == s[i..][j - i..];
  }

  /** `parseMatricule`: the lazy `([A-Z0-9]+?)` takes the shortest non-empty
      batch after which only digits remain; those digits, read in base 10, are
      the student number. */
  function ParseMatricule(s: string): (r: Option<ParsedMatricule>)
    ensures r.Some? <==> IsValidMatricule(s)
    ensures r.Some? ==>
      var k := 3 + |r.value.batch|;
      && r.value.prefix == Prefix
      && SplitsAt(s, k)
      && r.value.batch == s[3..k]
      && r.value.studentId == DecimalValue(s[k..])
      && forall k' :: 4 <= k' < k ==> !SplitsAt(s, k')
  {
    if !IsValidMatricule(s) then None
    else
      var rest := s[3..];
      var j := DigitRunStart(rest);
      assert rest[|rest| - 1] == s[|s| - 1];
      var k := 3 + (if j < 1 then 1 else j);
      assert s[k..] == rest[k - 3..];
      AllDigitsSuffix(rest, j, k - 3);
      assert forall k' :: 4 <= k' < k ==> !SplitsAt(s, k') by {
        forall k' | 4 <= k' < k ensures !SplitsAt(s, k') {
          assert s[k'..][k - 1 - k'] == s[k - 1] == rest[j - 1];
        }
      }
      Some(ParsedMatricule(Prefix, s[3..k], DecimalValue(s[k..])))
  }

  /** `getNextStudentId`: `(lastStudentId || 0) + 1`; a missing value and zero
      both give 1. */
  function GetNextStudentId(lastStudentId: Option<int>): (r: int)
    ensures lastStudentId.None? ==> r == 1
    ensures lastStudentId.Some? ==> r == lastStudentId.value + 1
  {
    (if lastStudentId.Some? && lastStudentId.value != 0 then lastStudentId.value else 0) + 1
  }

  // ---------------------------------------------------------------------
  // Properties

  lemma GenerateExamples()
    ensures GenerateMatricule(MatriculeMeta("B1", 144)) == "K48B1144"
    ensures GenerateMatricule(MatriculeMeta("B1", GetNextStudentId(Some(143)))) == "K48B1144"
    ensures GetNextStudentId(None) == 1 && GetNextStudentId(Some(0)) == 1 && GetNextStudentId(Some(144)) == 145
  {
    assert NatToDecimal(1) == "1";
    assert NatToDecimal(14) == "14";
    assert NatToDecimal(144) == "144";
  }

  lemma ValidityExamples()
    ensures IsValidMatricule("K48B1144") && IsValidMatricule("K48B2500") && IsValidMatricule("K48A1100")
    ensures !IsValidMatricule("K48") && !IsValidMatricule("ADMIN001")
  {
    assert "ADMIN001"[..3][0] == 'A' && Prefix[0] == 'K';
  }

  lemma ParseExample()
    ensures ParseMatricule("K48B1144") == Some(ParsedMatricule("K48", "B", 1144))
  {
    var s := "K48B1144";
    ValidityExamples();
    assert s[3..] == "B1144";
    assert "B1144"[1..] == "1144" && AllDigits("1144");
    DigitRunStartIs("B1144", 1);
    assert s[3..4] == "B" && s[4..] == "1144";
    assert "1144"[..3] == "114" && "114"[..2] == "11" && "11"[..1] == "1" && "1"[..0] == "";
    assert DecimalValue("1") == 1 && DecimalValue("11") == 11 && DecimalValue("114") == 114;
    assert DecimalValue("1144") == 1144;
  }

  /** Generation yields a valid matricule exactly when the batch is made of
      `[A-Z0-9]`, the number is not negative, and at least two characters follow
      the prefix (an empty batch with a one-digit number is too short). */
  lemma GenerateIsValidIff(meta: MatriculeMeta)
    ensures IsValidMatricule(GenerateMatricule(meta)) <==>
      AllBatchChars(meta.batch) && meta.studentId >= 0 && (|meta.batch| >= 1 || meta.studentId >= 10)
  {
    var b, n := meta.batch, meta.studentId;
    var s := GenerateMatricule(meta);
    var d := IntToString(n);
    IntToStringSign(n);
    assert s[..3] == Prefix;
    assert s[3..] == b + d;
    if IsValidMatricule(s) {
      assert forall i :: 0 <= i < |b| ==> b[i] == s[3..][i];
      assert d[0] == s[3..][|b|];
      if n >= 0 && |b| == 0 {
        assert |d| >= 2;
      }
    }
    if AllBatchChars(b) && n >= 0 && (|b| >= 1 || n >= 10) {
      if n >= 10 { assert |NatToDecimal(n / 10)| >= 1; }
      assert forall i :: 0 <= i < |s[3..]| ==> IsBatchChar(s[3..][i]) by {
        forall i | 0 <= i < |s[3..]| ensures IsBatchChar(s[3..][i]) {
          if i < |b| { assert s[3..][i] == b[i]; } else { assert s[3..][i] == d[i - |b|]; }
        }
      }
      assert s[|s| - 1] == d[|d| - 1];
    }
  }

  /** For a fixed batch, different numbers give different matricules. */
  lemma GenerateInjective(batch: string, m: int, n: int)
    requires GenerateMatricule(MatriculeMeta(batch, m)) == GenerateMatricule(MatriculeMeta(batch, n))
    ensures m == n
  {
    var k := |Prefix + batch|;
    assert IntToString(m) == GenerateMatricule(MatriculeMeta(batch, m))[k..];
    assert IntToString(n) == GenerateMatricule(MatriculeMeta(batch, n))[k..];
    IntToStringInjective(m, n);
  }

  /** Parsing a generated matricule: the digits start right after the batch
      when its last character is a letter, and the batch is then recovered. */
  lemma {:induction false} ParseGenerateLetterBatch(meta: MatriculeMeta)
    requires |meta.batch| >= 1 && AllBatchChars(meta.batch) && IsUpper(meta.batch[|meta.batch| - 1])
    requires meta.studentId >= 0
    ensures ParseMatricule(GenerateMatricule(meta)) == Some(ParsedMatricule(Prefix, meta.batch, meta.studentId))
  {
    var b, n := meta.batch, meta.studentId;
    var s := GenerateMatricule(meta);
    var d := NatToDecimal(n);
    GenerateIsValidIff(meta);
    var rest := s[3..];
    assert rest == b + d;
    assert rest[|b|..] == d;
    assert rest[|b| - 1] == b[|b| - 1];
    DigitRunStartIs(rest, |b|);
    assert s[3..3 + |b|] == b;
    assert s[3 + |b|..] == d;
    DecimalRoundTrip(n);
  }

  /** With a batch of two or more characters ending in a digit, the lazy
      pattern stops earlier: the parsed batch is a strictly shorter prefix of
      the batch and the left-over digits join the number. */
  lemma {:induction false} ParseGenerateDigitBatch(meta: MatriculeMeta)
    requires |meta.batch| >= 2 && AllBatchChars(meta.batch) && IsDigit(meta.batch[|meta.batch| - 1])
    requires meta.studentId >= 0
    ensures var r := ParseMatricule(GenerateMatricule(meta));
      r.Some? && |r.value.batch| < |meta.batch| && r.value.batch == meta.batch[..|r.value.batch|]
  {
    var b := meta.batch;
    var s := GenerateMatricule(meta);
    GenerateIsValidIff(meta);
    DigitBatchSplitsEarly(meta);
    var r := ParseMatricule(s);
    var k := 3 + |r.value.batch|;
    assert k <= 3 + |b| - 1;
    assert s[3..3 + |b|] == b;
    assert s[3..k] == b[..k - 3];
  }

  /** The last batch digit can already start the digit run. */
  lemma DigitBatchSplitsEarly(meta: MatriculeMeta)
    requires |meta.batch| >= 2 && AllBatchChars(meta.batch) && IsDigit(meta.batch[|meta.batch| - 1])
    requires meta.studentId >= 0
    ensures SplitsAt(GenerateMatricule(meta), 3 + |meta.batch| - 1)
  {
    var b, n := meta.batch, meta.studentId;
    var s := GenerateMatricule(meta);
    var d := NatToDecimal(n);
    var t := s[3 + |b| - 1..];
    assert t == [b[|b| - 1]] + d;
    assert AllDigits(t);
    assert AllBatchChars(s[3..3 + |b| - 1]) by {
      assert s[3..3 + |b| - 1] == b[..|b| - 1];
    }
  }

  /** The round trip holds exactly when the batch is a single character or
      ends in a letter. */
  lemma ParseGenerateIff(meta: MatriculeMeta)
    requires |meta.batch| >= 1 && AllBatchChars(meta.batch) && meta.studentId >= 0
    ensures ParseMatricule(GenerateMatricule(meta)) == Some(ParsedMatricule(Prefix, meta.batch, meta.studentId))
      <==> |meta.batch| == 1 || IsUpper(meta.batch[|meta.batch| - 1])
  {
    var b := meta.batch;
    if IsUpper(b[|b| - 1]) {
      ParseGenerateLetterBatch(meta);
    } else if |b| == 1 {
      var s := GenerateMatricule(meta);
      GenerateIsValidIff(meta);
      var r := ParseMatricule(s);
      assert |r.value.batch| >= 1;
      assert !SplitsAt(s, 3) && 3 + |r.value.batch| == 4;
      assert s[3..4] == b;
      assert s[4..] == NatToDecimal(meta.studentId);
      DecimalRoundTrip(meta.studentId);
    } else {
      assert IsBatchChar(b[|b| - 1]);
      ParseGenerateDigitBatch(meta);
    }
  }

  /** The example from the source's own comment does not survive the round
      trip: batch `B1`, number 144 parse back as batch `B`, number 1144. */
  lemma ParseGenerateB1()
    ensures ParseMatricule(GenerateMatricule(MatriculeMeta("B1", 144))) == Some(ParsedMatricule("K48", "B", 1144))
  {
    GenerateExamples();
    ParseExample();
  }
}
