/**
 * The tokenizing applied to each command line: `line.strip().split(' ')`.
 * Whitespace is Python's `str.isspace` restricted to ASCII.  The functions
 * carry only the bounds their callers need; what they compute is stated by
 * the lemmas after each one.
 */
module Text {

  /** Space, the controls `\t` to `\r`, and the separators 0x1c to 0x1f. */
  predicate IsSpace(c: char) {
    c == ' ' || ('\t' <= c <= '\r') || (28 as char <= c <= 31 as char)
  }

  predicate AllSpace(s: string) {
    forall i :: 0 <= i < |s| ==> IsSpace(s[i])
  }

  /** The number of leading whitespace characters. */
  function LeadingSpaces(s: string): (n: nat)
    ensures n <= |s|
    decreases |s|
  {
    if s == [] || !IsSpace(s[0]) then 0 else 1 + LeadingSpaces(s[1..])
  }

  /** `LeadingSpaces` counts exactly the whitespace run at the start. */
  lemma {:induction false} LeadingSpacesSpec(s: string)
    ensures forall k :: 0 <= k < LeadingSpaces(s) ==> IsSpace(s[k])
    ensures LeadingSpaces(s) < |s| ==> !IsSpace(s[LeadingSpaces(s)])
    decreases |s|
  {
    if s != [] && IsSpace(s[0]) {
      LeadingSpacesSpec(s[1..]);
    }
  }

  /** The number of trailing whitespace characters. */
  function TrailingSpaces(s: string): (n: nat)
    ensures n <= |s|
    decreases |s|
  {
    if s == [] || !IsSpace(s[|s| - 1]) then 0 else 1 + TrailingSpaces(s[..|s| - 1])
  }

  /** `TrailingSpaces` counts exactly the whitespace run at the end. */
  lemma {:induction false} TrailingSpacesSpec(s: string)
    ensures forall k :: |s| - TrailingSpaces(s) <= k < |s| ==> IsSpace(s[k])
    ensures TrailingSpaces(s) < |s| ==> !IsSpace(s[|s| - TrailingSpaces(s) - 1])
    decreases |s|
  {
    if s != [] && IsSpace(s[|s| - 1]) {
      TrailingSpacesSpec(s[..|s| - 1]);
    }
  }

  /** `str.strip()`. */
  function Strip(s: string): string {
    var t := s[LeadingSpaces(s)..];
    t[..|t| - TrailingSpaces(t)]
  }

  /**
   * `Strip` removes whitespace at both ends and nothing else: the result is
   * an infix of s, what it cuts off is whitespace, and it neither starts nor
   * ends with whitespace.
   */
  lemma StripSpec(s: string)
    ensures exists i, j :: 0 <= i <= j <= |s| && Strip(s) == s[i..j] && AllSpace(s[..i]) && AllSpace(s[j..])
    ensures var r := Strip(s); r != [] ==> !IsSpace(r[0]) && !IsSpace(r[|r| - 1])
  {
    var i := LeadingSpaces(s);
    var t := s[i..];
    var n := TrailingSpaces(t);
    var j := i + |t| - n;
    LeadingSpacesSpec(s);
    TrailingSpacesSpec(t);
    assert Strip(s) == s[i..j];
    forall k | 0 <= k < |s| - j
      ensures IsSpace(s[j..][k])
    {
      assert s[j..][k] == t[|t| - n + k];
    }
  }

  /** The position of the first space in s. */
  function FirstSpace(s: string): (i: nat)
    requires ' ' in s
    ensures i < |s| && s[i] == ' ' && ' ' !in s[..i]
    decreases |s|
  {
    if s[0] == ' ' then 0 else
      var i := 1 + FirstSpace(s[1..]);
      assert s[..i] == [s[0]] + s[1..][..i - 1];
      i
  }

  /** Joins the parts with single spaces (`' '.join(parts)`). */
  function Join(parts: seq<string>): string
    requires |parts| >= 1
    decreases |parts|
  {
    if |parts| == 1 then parts[0] else parts[0] + " " + Join(parts[1..])
  }

  /**
   * `s.split(' ')`: the pieces between single spaces, so adjacent spaces
   * yield empty pieces and the empty string yields `['']`.
   */
  function Split(s: string): (parts: seq<string>)
    ensures |parts| >= 1
    decreases |s|
  {
    if ' ' !in s then [s] else
      var i := FirstSpace(s);
      [s[..i]] + Split(s[i + 1..])
  }

  /** The pieces are space-free, and joining them with spaces gives s back. */
  lemma {:induction false} JoinSplit(s: string)
    ensures forall k :: 0 <= k < |Split(s)| ==> ' ' !in Split(s)[k]
    ensures Join(Split(s)) == s
    decreases |s|
  {
    if ' ' in s {
      var i := FirstSpace(s);
      var rest := Split(s[i + 1..]);
      JoinSplit(s[i + 1..]);
      var parts := Split(s);
      assert parts == [s[..i]] + rest;
      assert parts[1..] == rest;
      assert Join(parts) == s[..i] + " " + Join(rest);
      assert s == s[..i] + " " + s[i + 1..];
      forall k | 0 <= k < |parts|
        ensures ' ' !in parts[k]
      {
        if k > 0 {
          assert parts[k] == rest[k - 1];
        }
      }
    }
  }

  /** Splitting a space-joined list of space-free pieces gives the pieces back. */
  lemma {:induction false} SplitJoin(parts: seq<string>)
    requires |parts| >= 1
    requires forall k :: 0 <= k < |parts| ==> ' ' !in parts[k]
    ensures Split(Join(parts)) == parts
    decreases |parts|
  {
    if |parts| > 1 {
      var s := Join(parts);
      var rest := parts[1..];
      assert s == parts[0] + " " + Join(rest);
      assert s[|parts[0]|] == ' ';
      assert s[..|parts[0]|] == parts[0];
      assert FirstSpace(s) == |parts[0]|;
      assert s[|parts[0]| + 1..] == Join(rest);
      SplitJoin(rest);
      assert parts == [parts[0]] + rest;
    }
  }
}
