/** The reach of a regular expression's `.`: it matches any character but
    a line break, so a pattern that starts with `.*` and is applied with
    `re.match` only ever scans the first line of its subject. */
module Lines {

  /** The part of s before its first line break: `.` in a regular
      expression does not match a newline, so `re.match(".*...")` only
      sees the first line. */
  function FirstLine(s: string): (r: string)
    ensures r <= s
    ensures forall k :: 0 <= k < |r| ==> r[k] != '\n'
    ensures |r| < |s| ==> s[|r|] == '\n'
  {
    if s == [] || s[0] == '\n' then [] else [s[0]] + FirstLine(s[1..])
  }

  /** The first line reaches at least up to the first line break. */
  lemma {:induction false} FirstLineCovers(s: string, m: nat)
    requires m <= |s|
    requires forall k :: 0 <= k < m ==> s[k] != '\n'
    ensures m <= |FirstLine(s)|
    decreases m
  {
    if m > 0 {
      FirstLineCovers(s[1..], m - 1);
    }
  }

  /** A line without a break before the rest of the text is part of the
      first line. */
  lemma {:induction false} FirstLineAfterLine(line: string, rest: string)
    requires forall k :: 0 <= k < |line| ==> line[k] != '\n'
    ensures FirstLine(line + rest) == line + FirstLine(rest)
    decreases |line|
  {
    if line != [] {
      assert (line + rest)[1..] == line[1..] + rest;
      FirstLineAfterLine(line[1..], rest);
    } else {
      assert line + rest == rest;
    }
  }
}
