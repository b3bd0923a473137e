/** Deriving the default audio name from a picked file's name
    (`name.split(".").slice(0, -1).join(".")`). */
module FileNames {
  import opened Optional
  import opened Text

  /** Index of the last occurrence of `c` in `s`, or None when `c` does not
      occur. This is the reference the split/join derivation is checked
      against. */
  function LastIndexOf(s: string, c: char): (r: Option<nat>)
    ensures r.None? <==> c !in s
    ensures r.Some? ==> r.value < |s| && s[r.value] == c && c !in s[r.value + 1..]
  {
    if |s| == 0 then None
    else if s[|s| - 1] == c then Some(|s| - 1)
    else
      var r := LastIndexOf(s[..|s| - 1], c);
      assert s == s[..|s| - 1] + [s[|s| - 1]];
      if r.Some? then
        assert s[r.value + 1..] == s[..|s| - 1][r.value + 1..] + [s[|s| - 1]];
        r
      else
        r
  }

  /** The text after the last '.', or "" when the name has no dot. */
  function Extension(fileName: string): string {
    match LastIndexOf(fileName, '.')
    case None => ""
    case Some(i) => fileName[i + 1..]
  }

  /** When `c` does not occur in `t`, the occurrence of `c` placed just
      before `t` is the last one. */
  lemma {:induction false} LastIndexOfBeforeTail(d: string, c: char, t: string)
    requires c !in t
    ensures LastIndexOf(d + [c] + t, c) == Some(|d|)
    decreases |t|
  {
    var s := d + [c] + t;
    if |t| > 0 {
      var t' := t[..|t| - 1];
      assert s[|s| - 1] == t[|t| - 1] != c;
      assert s[..|s| - 1] == d + [c] + t';
      LastIndexOfBeforeTail(d, c, t');
    } else {
      assert s == d + [c];
    }
  }

  /** The name proposed for a picked file while the name field is empty:
      all pieces of the dot-split name but the last, re-joined with dots. */
  function DefaultName(fileName: string): (r: string)
    ensures '.' !in fileName ==> r == ""
    ensures '.' in fileName ==>
              r + "." + Extension(fileName) == fileName && '.' !in Extension(fileName)
  {
    var parts := Split(fileName, '.');
    var r := Join(parts[..|parts| - 1], '.');
    if |parts| >= 2 then
      JoinSnoc(parts, '.');
      LastIndexOfBeforeTail(r, '.', parts[|parts| - 1]);
      assert fileName == r + ['.'] + parts[|parts| - 1];
      assert fileName[|r| + 1..] == parts[|parts| - 1];
      r
    else
      assert fileName == parts[0];
      r
  }

  /** The default name is exactly the prefix before the last dot, and ""
      for a name without a dot. */
  lemma DefaultNameIsPrefixBeforeLastDot(fileName: string)
    ensures LastIndexOf(fileName, '.').None? ==> DefaultName(fileName) == ""
    ensures LastIndexOf(fileName, '.').Some? ==>
              DefaultName(fileName) == fileName[..LastIndexOf(fileName, '.').value]
  {
    var i := LastIndexOf(fileName, '.');
    if i.Some? {
      var r := DefaultName(fileName);
      var e := Extension(fileName);
      assert fileName == r + "." + e;
      LastIndexOfBeforeTail(r, '.', e);
      assert fileName[..|r|] == r;
    }
  }

  /** Inner dots are kept: "a.b.mp3" proposes "a.b". */
  lemma DefaultNameKeepsInnerDots()
    ensures DefaultName("a.b.mp3") == "a.b"
  {
    LastIndexOfBeforeTail("a.b", '.', "mp3");
    assert "a.b" + ['.'] + "mp3" == "a.b.mp3";
    DefaultNameIsPrefixBeforeLastDot("a.b.mp3");
  }

  /** A name whose only dot leads it, such as ".mp3", proposes the empty name. */
  lemma DefaultNameOfLeadingDot()
    ensures DefaultName(".mp3") == ""
  {
    LastIndexOfBeforeTail("", '.', "mp3");
    assert "" + ['.'] + "mp3" == ".mp3";
    DefaultNameIsPrefixBeforeLastDot(".mp3");
  }
}
