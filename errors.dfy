/** The error-marker detector of src/errors.py: a search, anywhere in a message,
    for the regular expression `Error:|Timeout \d+ms exceeded|Target closed`.
    The regular expression is replaced by an explicit matcher over ASCII. */
module Errors {
  import opened Text

  const ERROR_MARKER: string := "Error:"
  const TIMEOUT_LEAD: string := "Timeout "
  const TIMEOUT_TRAIL: string := "ms exceeded"
  const TARGET_CLOSED: string := "Target closed"

  /** Where the run of digits that starts at `i` ends. */
  function DigitRunEnd(m: string, i: nat): (e: nat)
    requires i <= |m|
    ensures i <= e <= |m|
    ensures forall k :: i <= k < e ==> IsDigit(m[k])
    ensures e == |m| || !IsDigit(m[e])
    decreases |m| - i
  {
    if i < |m| && IsDigit(m[i]) then DigitRunEnd(m, i + 1) else i
  }

  /** `Timeout \d+ms exceeded` matches at `i`. Since `m` is not a digit, `\d+`
      can only match the whole run of digits after the blank. */
  predicate TimeoutAt(m: string, i: nat)
  {
    OccursAt(m, TIMEOUT_LEAD, i)
    && var e := DigitRunEnd(m, i + |TIMEOUT_LEAD|);
    e > i + |TIMEOUT_LEAD| && OccursAt(m, TIMEOUT_TRAIL, e)
  }

  /** One of the three alternatives matches at `i`. */
  predicate IndicatorAt(m: string, i: nat)
  {
    OccursAt(m, ERROR_MARKER, i) || TimeoutAt(m, i) || OccursAt(m, TARGET_CLOSED, i)
  }

  /** `re.search` from position `i` on. */
  function SearchFrom(m: string, i: nat): (found: bool)
    requires i <= |m|
    ensures found <==> exists k: nat :: i <= k <= |m| && IndicatorAt(m, k)
    decreases |m| - i
  {
    IndicatorAt(m, i) || (i < |m| && SearchFrom(m, i + 1))
  }

  /** `detect_error(message)`. */
  function DetectError(message: string): (found: bool)
    ensures found <==> exists k: nat :: k <= |message| && IndicatorAt(message, k)
  {
    SearchFrom(message, 0)
  }

  /** The middle alternative matched at `i` with exactly `k` digits. */
  predicate TimeoutWith(m: string, i: nat, k: nat)
  {
    k >= 1 && OccursAt(m, TIMEOUT_LEAD, i) && i + |TIMEOUT_LEAD| + k <= |m|
    && (forall j :: i + |TIMEOUT_LEAD| <= j < i + |TIMEOUT_LEAD| + k ==> IsDigit(m[j]))
    && OccursAt(m, TIMEOUT_TRAIL, i + |TIMEOUT_LEAD| + k)
  }

  /** One alternative of the regular expression, read literally, matches at `i`:
      the middle one with some positive number of digits. */
  ghost predicate AlternativeAt(m: string, i: nat)
  {
    OccursAt(m, ERROR_MARKER, i) || OccursAt(m, TARGET_CLOSED, i) || exists k: nat :: TimeoutWith(m, i, k)
  }

  /** The regular expression matches somewhere in `m`. */
  ghost predicate MatchesPattern(m: string)
  {
    exists i: nat :: i <= |m| && AlternativeAt(m, i)
  }

  lemma {:induction false} DigitRunEndAt(m: string, j: nat, k: nat)
    requires j + k <= |m|
    requires forall i :: j <= i < j + k ==> IsDigit(m[i])
    requires j + k == |m| || !IsDigit(m[j + k])
    ensures DigitRunEnd(m, j) == j + k
    decreases k
  {
    if k > 0 {
      DigitRunEndAt(m, j + 1, k - 1);
    }
  }

  lemma AlternativeIsIndicator(m: string, i: nat)
    ensures AlternativeAt(m, i) <==> IndicatorAt(m, i)
  {
    if TimeoutAt(m, i) {
      var e := DigitRunEnd(m, i + |TIMEOUT_LEAD|);
      assert TimeoutWith(m, i, e - (i + |TIMEOUT_LEAD|));
    }
    if !OccursAt(m, ERROR_MARKER, i) && !OccursAt(m, TARGET_CLOSED, i) && AlternativeAt(m, i) {
      var k: nat :| TimeoutWith(m, i, k);
      assert m[i + |TIMEOUT_LEAD| + k] == m[i + |TIMEOUT_LEAD| + k..i + |TIMEOUT_LEAD| + k + |TIMEOUT_TRAIL|][0];
      DigitRunEndAt(m, i + |TIMEOUT_LEAD|, k);
    }
  }

  /** The matcher agrees with the regular expression, in both directions. */
  lemma DetectErrorMatchesPattern(m: string)
    ensures DetectError(m) <==> MatchesPattern(m)
  {
    if DetectError(m) {
      var i: nat :| i <= |m| && IndicatorAt(m, i);
      AlternativeIsIndicator(m, i);
    }
    if MatchesPattern(m) {
      var i: nat :| i <= |m| && AlternativeAt(m, i);
      AlternativeIsIndicator(m, i);
    }
  }

  lemma ErrorMarkerDetected(m: string)
    requires Contains(m, ERROR_MARKER)
    ensures DetectError(m)
  {
    var i: nat :| i <= |m| && OccursAt(m, ERROR_MARKER, i);
    assert IndicatorAt(m, i);
  }

  lemma TargetClosedDetected(m: string)
    requires Contains(m, TARGET_CLOSED)
    ensures DetectError(m)
  {
    var i: nat :| i <= |m| && OccursAt(m, TARGET_CLOSED, i);
    assert IndicatorAt(m, i);
  }

  /** `Timeout `, one or more digits and `ms exceeded`, anywhere in the message. */
  lemma TimeoutDetected(a: string, digits: string, b: string)
    requires |digits| >= 1 && forall j :: 0 <= j < |digits| ==> IsDigit(digits[j])
    ensures DetectError(a + (TIMEOUT_LEAD + digits + TIMEOUT_TRAIL) + b)
  {
    var s := TIMEOUT_LEAD + digits + TIMEOUT_TRAIL;
    var m := a + s + b;
    assert OccursAt(s, TIMEOUT_LEAD, 0);
    OccursAtShift(a, s, b, TIMEOUT_LEAD, 0);
    assert s[|TIMEOUT_LEAD| + |digits|..] == TIMEOUT_TRAIL;
    assert OccursAt(s, TIMEOUT_TRAIL, |TIMEOUT_LEAD| + |digits|);
    OccursAtShift(a, s, b, TIMEOUT_TRAIL, |TIMEOUT_LEAD| + |digits|);
    forall j | |a| + |TIMEOUT_LEAD| <= j < |a| + |TIMEOUT_LEAD| + |digits|
      ensures IsDigit(m[j])
    {
      assert m[j] == digits[j - |a| - |TIMEOUT_LEAD|];
    }
    assert TimeoutWith(m, |a|, |digits|);
    assert AlternativeAt(m, |a|);
    DetectErrorMatchesPattern(m);
  }

  /** Every match begins with the first letter of one of the alternatives. */
  lemma IndicatorInitial(m: string, i: nat)
    requires IndicatorAt(m, i)
    ensures i < |m| && (m[i] == 'E' || m[i] == 'T')
  {
    if OccursAt(m, ERROR_MARKER, i) {
      assert m[i] == m[i..i + |ERROR_MARKER|][0];
    } else if OccursAt(m, TARGET_CLOSED, i) {
      assert m[i] == m[i..i + |TARGET_CLOSED|][0];
    } else {
      assert m[i] == m[i..i + |TIMEOUT_LEAD|][0];
    }
  }

  /** No match starts at or after `i` when no capital `E` or `T` occurs there. */
  lemma NoInitialFrom(m: string, i: nat)
    requires i <= |m|
    requires forall j :: i <= j < |m| ==> m[j] != 'E' && m[j] != 'T'
    ensures !SearchFrom(m, i)
  {
    if SearchFrom(m, i) {
      var k: nat :| i <= k <= |m| && IndicatorAt(m, k);
      IndicatorInitial(m, k);
    }
  }

  /** Matching is case-sensitive: a message with neither capital letter never matches. */
  lemma NoInitialNoError(m: string)
    requires forall j :: 0 <= j < |m| ==> m[j] != 'E' && m[j] != 'T'
    ensures !DetectError(m)
  {
    NoInitialFrom(m, 0);
  }

  lemma LowerCaseErrorNotDetected()
    ensures !DetectError("error:")
    ensures !DetectError("")
  {
    NoInitialNoError("error:");
    NoInitialNoError("");
  }

  /** Without digits between `Timeout ` and `ms exceeded` there is no match. */
  lemma TimeoutWithoutDigitsNotDetected()
    ensures !DetectError("Timeout ms exceeded")
  {
    var m := "Timeout ms exceeded";
    assert !IndicatorAt(m, 0) by {
      assert m[0] != ERROR_MARKER[0];
      assert m[1] != TARGET_CLOSED[1];
      assert !IsDigit(m[|TIMEOUT_LEAD|]);
    }
    NoInitialFrom(m, 1);
  }

  lemma {:induction false} TimeoutWithShift(a: string, m: string, b: string, i: nat, k: nat)
    requires TimeoutWith(m, i, k)
    ensures TimeoutWith(a + m + b, |a| + i, k)
  {
    OccursAtShift(a, m, b, TIMEOUT_LEAD, i);
    OccursAtShift(a, m, b, TIMEOUT_TRAIL, i + |TIMEOUT_LEAD| + k);
    var s := a + m + b;
    forall j | |a| + i + |TIMEOUT_LEAD| <= j < |a| + i + |TIMEOUT_LEAD| + k
      ensures IsDigit(s[j])
    {
      assert s[j] == m[j - |a|];
    }
  }

  /** Search semantics: a message that matches still matches inside any longer text. */
  lemma DetectErrorExtend(a: string, m: string, b: string)
    requires DetectError(m)
    ensures DetectError(a + m + b)
  {
    DetectErrorMatchesPattern(m);
    var i: nat :| i <= |m| && AlternativeAt(m, i);
    if OccursAt(m, ERROR_MARKER, i) {
      OccursAtShift(a, m, b, ERROR_MARKER, i);
    } else if OccursAt(m, TARGET_CLOSED, i) {
      OccursAtShift(a, m, b, TARGET_CLOSED, i);
    } else {
      var k: nat :| TimeoutWith(m, i, k);
      TimeoutWithShift(a, m, b, i, k);
    }
    assert AlternativeAt(a + m + b, |a| + i);
    DetectErrorMatchesPattern(a + m + b);
  }
}
