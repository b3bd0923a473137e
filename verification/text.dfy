/** The small fragment of JavaScript's string library that the admin form
    relies on: `trim`, `startsWith`, and `split`/`join` on a one-character
    separator. Strings are sequences of Unicode scalar values. */
module Text {

  /** The characters `String.prototype.trim` strips: the WhiteSpace and
      LineTerminator code points of the ECMAScript grammar (the fixed ones
      plus every character of Unicode category Zs). */
  predicate IsWhitespace(c: char) {
    || c == '\t' || c == '\n' || c == '\U{000B}' || c == '\U{000C}' || c == '\r'
    || c == ' ' || c == '\U{00A0}' || c == '\U{1680}'
    || ('\U{2000}' <= c <= '\U{200A}')
    || c == '\U{2028}' || c == '\U{2029}' || c == '\U{202F}' || c == '\U{205F}'
    || c == '\U{3000}' || c == '\U{FEFF}'
  }

  /** Every character of `s` is whitespace (vacuously true of ""). */
  predicate AllWhitespace(s: string) {
    forall i :: 0 <= i < |s| ==> IsWhitespace(s[i])
  }

  /** The number of whitespace characters `s` starts with. */
  function LeadingWhitespace(s: string): (n: nat)
    ensures n <= |s|
    ensures forall i :: 0 <= i < n ==> IsWhitespace(s[i])
    ensures n == |s| || !IsWhitespace(s[n])
  {
    if |s| == 0 || !IsWhitespace(s[0]) then 0
    else
      var n := LeadingWhitespace(s[1..]);
      assert forall i :: 1 <= i < |s| ==> s[1..][i - 1] == s[i];
      1 + n
  }

  /** The number of whitespace characters `s` ends with. */
  function TrailingWhitespace(s: string): (n: nat)
    ensures n <= |s|
    ensures forall i :: |s| - n <= i < |s| ==> IsWhitespace(s[i])
    ensures n == |s| || !IsWhitespace(s[|s| - n - 1])
  {
    if |s| == 0 || !IsWhitespace(s[|s| - 1]) then 0
    else
      var n := TrailingWhitespace(s[..|s| - 1]);
      assert forall i :: 0 <= i < |s| - 1 ==> s[..|s| - 1][i] == s[i];
      1 + n
  }

  /** JavaScript's `s.trim()`: the slice of `s` from its first to its last
      non-whitespace character, or "" when there is none. Everything cut
      away is whitespace and every character kept lies between the two. */
  function Trim(s: string): (r: string)
    ensures LeadingWhitespace(s) + |r| <= |s|
    ensures r == s[LeadingWhitespace(s)..LeadingWhitespace(s) + |r|]
    ensures forall i :: 0 <= i < |s| && !IsWhitespace(s[i]) ==>
              LeadingWhitespace(s) <= i < LeadingWhitespace(s) + |r|
    ensures r == [] || (!IsWhitespace(r[0]) && !IsWhitespace(r[|r| - 1]))
  {
    var a := LeadingWhitespace(s);
    var n := TrailingWhitespace(s);
    if a == |s| then ""
    else
      assert !IsWhitespace(s[a]);
      s[a..|s| - n]
  }

  /** The test `!s.trim()`: JavaScript treats only the empty string as falsy,
      so a name is blank exactly when trimming leaves nothing. */
  predicate IsBlank(s: string) {
    Trim(s) == ""
  }

  /** A name is blank exactly when it consists of whitespace only. */
  lemma BlankIffAllWhitespace(s: string)
    ensures IsBlank(s) <==> AllWhitespace(s)
  {
    var r := Trim(s);
    var a := LeadingWhitespace(s);
    if r != [] {
      assert r[0] == s[a];
      assert !AllWhitespace(s);
    }
  }

  /** JavaScript's `s.startsWith(prefix)`. */
  function StartsWith(s: string, prefix: string): (b: bool)
    ensures b <==> exists t :: s == prefix + t
  {
    if |prefix| <= |s| && s[..|prefix|] == prefix then
      assert s == prefix + s[|prefix|..];
      true
    else
      assert forall t :: (prefix + t)[..|prefix|] == prefix;
      false
  }

  /** JavaScript's `parts.join(sep)`. */
  function Join(parts: seq<string>, sep: char): string {
    if |parts| == 0 then ""
    else if |parts| == 1 then parts[0]
    else parts[0] + [sep] + Join(parts[1..], sep)
  }

  /** Extending the first part by one leading character extends the joined
      string by that character. */
  lemma JoinConsChar(c: char, p: string, rest: seq<string>, sep: char)
    ensures Join([[c] + p] + rest, sep) == [c] + Join([p] + rest, sep)
  {
    if |rest| > 0 {
      assert ([[c] + p] + rest)[1..] == rest;
      assert ([p] + rest)[1..] == rest;
    }
  }

  /** JavaScript's `s.split(sep)` for a one-character separator: the maximal
      separator-free pieces of `s`, in order. There is always at least one
      piece, and joining them back restores `s`. */
  function Split(s: string, sep: char): (parts: seq<string>)
    ensures |parts| >= 1
    ensures forall i :: 0 <= i < |parts| ==> sep !in parts[i]
    ensures Join(parts, sep) == s
  {
    if |s| == 0 then [""]
    else
      var rest := Split(s[1..], sep);
      if s[0] == sep then
        assert [""] + rest == [[]] + rest;
        assert s == [sep] + s[1..];
        [""] + rest
      else
        JoinConsChar(s[0], rest[0], rest[1..], sep);
        assert [rest[0]] + rest[1..] == rest;
        assert s == [s[0]] + s[1..];
        [[s[0]] + rest[0]] + rest[1..]
  }

  /** Joining all parts equals joining all but the last, then the separator,
      then the last part. */
  lemma {:induction false} JoinSnoc(parts: seq<string>, sep: char)
    requires |parts| >= 2
    ensures Join(parts, sep) == Join(parts[..|parts| - 1], sep) + [sep] + parts[|parts| - 1]
  {
    if |parts| == 2 {
      assert parts[..1] == [parts[0]];
      assert parts[1..] == [parts[1]];
    } else {
      var tail := parts[1..];
      JoinSnoc(tail, sep);
      assert tail[..|tail| - 1] == parts[..|parts| - 1][1..];
      assert tail[|tail| - 1] == parts[|parts| - 1];
    }
  }
}
