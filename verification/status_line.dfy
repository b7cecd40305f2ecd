/** The split `response` performs on the accumulated status line: the match
    of `HTTP/1.1 ([0-9]+) ([\s\S]+)`, taken at the start of the line, into a
    status code and a reason text. */
module StatusLine {
  import opened Results

  predicate IsDigit(c: char) {
    '0' <= c <= '9'
  }

  predicate AllDigits(s: string) {
    forall i :: 0 <= i < |s| ==> IsDigit(s[i])
  }

  /** What the line must start with. */
  const Version: string := "HTTP/1.1 "

  /** The length of the longest run of decimal digits at the front of s:
      what the greedy `[0-9]+` takes. */
  function DigitRun(s: string): (k: nat)
    ensures k <= |s|
    ensures AllDigits(s[..k])
    ensures k < |s| ==> !IsDigit(s[k])
    decreases |s|
  {
    if s == [] || !IsDigit(s[0]) then 0
    else
      var k := 1 + DigitRun(s[1..]);
      assert s[..k] == [s[0]] + s[1..][..k - 1];
      k
  }

  /** The code and reason of a well-formed status line, or None when the
      line does not have that shape. */
  function SplitStatusLine(line: string): (r: Option<(string, string)>)
    ensures r.Some? ==>
      && line == Version + r.value.0 + " " + r.value.1
      && |r.value.0| > 0 && AllDigits(r.value.0)
      && |r.value.1| > 0
  {
    if |line| < |Version| || line[..|Version|] != Version then None
    else
      var rest := line[|Version|..];
      var k := DigitRun(rest);
      if 0 < k && k + 1 < |rest| && rest[k] == ' ' then
        assert line == Version + rest[..k] + " " + rest[k + 1..] by {
          assert rest == rest[..k] + [rest[k]] + rest[k + 1..];
          assert line == line[..|Version|] + rest;
        }
        Some((rest[..k], rest[k + 1..]))
      else None
  }

  /** Every line built from a digit code and a non-empty reason splits back
      into that code and reason, even when the reason itself holds digits or
      spaces. */
  lemma SplitStatusLineRoundTrip(code: string, text: string)
    requires |code| > 0 && AllDigits(code) && |text| > 0
    ensures SplitStatusLine(Version + code + " " + text) == Some((code, text))
  {
    var line := Version + code + " " + text;
    assert line[..|Version|] == Version;
    var rest := line[|Version|..];
    assert rest == code + " " + text;
    var k := DigitRun(rest);
    assert rest[|code|] == ' ';
    assert k == |code|;
    assert rest[..k] == code;
    assert rest[k + 1..] == text;
  }
}
