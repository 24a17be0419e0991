/**
 The rewrite `time.replace(/(\d{4})\D(\d{2})\D(\d{2})/, '$1-$2-$3')` applied to a
 capture-time string before it is parsed: the first (leftmost) place where four
 digits, a non-digit, two digits, a non-digit and two digits occur has its two
 separators replaced by `-`. The regular expression has no `g` flag, so only that
 first occurrence is rewritten. `\d` is the ASCII digit class.
 */
module CaptureTime {
  import opened Wrappers

  predicate IsDigit(c: char) {
    '0' <= c <= '9'
  }

  /** The ten characters of `s` starting at `i` match `\d{4}\D\d{2}\D\d{2}`. */
  predicate MatchesAt(s: string, i: nat) {
    && i + 10 <= |s|
    && IsDigit(s[i]) && IsDigit(s[i + 1]) && IsDigit(s[i + 2]) && IsDigit(s[i + 3])
    && !IsDigit(s[i + 4])
    && IsDigit(s[i + 5]) && IsDigit(s[i + 6])
    && !IsDigit(s[i + 7])
    && IsDigit(s[i + 8]) && IsDigit(s[i + 9])
  }

  /** The leftmost match at or after position `from`, if any. */
  function FirstMatchFrom(s: string, from: nat): (r: Option<nat>)
    ensures r.Some? ==> from <= r.value && MatchesAt(s, r.value)
    ensures r.Some? ==> forall k :: from <= k < r.value ==> !MatchesAt(s, k)
    ensures r.None? ==> forall k :: from <= k ==> !MatchesAt(s, k)
    decreases |s| - from
  {
    if from + 10 > |s| then None
    else if MatchesAt(s, from) then Some(from)
    else FirstMatchFrom(s, from + 1)
  }

  function FirstMatch(s: string): Option<nat> {
    FirstMatchFrom(s, 0)
  }

  /** The separator rewrite. */
  function NormalizeSeparators(s: string): (r: string)
    ensures |r| == |s|
    ensures (forall k :: !MatchesAt(s, k)) ==> r == s
    ensures FirstMatch(s).Some? ==>
      var i := FirstMatch(s).value;
      && MatchesAt(s, i) && (forall k :: 0 <= k < i ==> !MatchesAt(s, k))
      && r[i + 4] == '-' && r[i + 7] == '-'
      && forall k :: 0 <= k < |s| && k != i + 4 && k != i + 7 ==> r[k] == s[k]
  {
    match FirstMatch(s)
    case None => s
    case Some(i) => s[..i + 4] + "-" + s[i + 5..i + 7] + "-" + s[i + 8..]
  }

  /** Two strings of equal length with digits in exactly the same places. */
  predicate SameDigitPattern(s: string, t: string) {
    |s| == |t| && forall k :: 0 <= k < |s| ==> (IsDigit(s[k]) <==> IsDigit(t[k]))
  }

  /** Where the pattern matches depends only on which characters are digits. */
  lemma {:induction false} FirstMatchFromDigitPattern(s: string, t: string, from: nat)
    requires SameDigitPattern(s, t)
    ensures FirstMatchFrom(s, from) == FirstMatchFrom(t, from)
    decreases |s| - from
  {
    if from + 10 <= |s| {
      assert MatchesAt(s, from) == MatchesAt(t, from);
      FirstMatchFromDigitPattern(s, t, from + 1);
    }
  }

  /** The rewrite keeps the digit pattern, since `-` is a non-digit like the separator it replaces. */
  lemma NormalizeKeepsDigitPattern(s: string)
    ensures SameDigitPattern(s, NormalizeSeparators(s))
  {
  }

  /** Rewriting a second time changes nothing: the same place still matches first, and its separators are already `-`. */
  lemma NormalizeIdempotent(s: string)
    ensures NormalizeSeparators(NormalizeSeparators(s)) == NormalizeSeparators(s)
  {
    var r := NormalizeSeparators(s);
    NormalizeKeepsDigitPattern(s);
    FirstMatchFromDigitPattern(s, r, 0);
    var rr := NormalizeSeparators(r);
    assert |rr| == |r|;
    forall k | 0 <= k < |r|
      ensures rr[k] == r[k]
    {
    }
  }

  /** An EXIF-style capture time gets ISO date separators and keeps its time of day. */
  lemma ExifDateExample()
    ensures NormalizeSeparators("2019:05:04 10:20:30") == "2019-05-04 10:20:30"
  {
    var s := "2019:05:04 10:20:30";
    assert MatchesAt(s, 0);
    assert FirstMatch(s) == Some(0);
    assert s[..4] == "2019" && s[5..7] == "05" && s[8..] == "04 10:20:30";
  }
}
