/** The display name of a folder path: a backslash-separated path with five
    or more components loses components 1 to 3 and is rejoined with '/';
    a shorter path is shown as "/". */
module CurrentFolder {

  const Backslash: char := '\\'
  const Slash: char := '/'

  /** `s.split(sep)`: the pieces between separators; always at least one. */
  function Split(s: string, sep: char): (parts: seq<string>)
    ensures |parts| >= 1
    ensures forall i :: 0 <= i < |parts| ==> sep !in parts[i]
  {
    if s == [] then [""]
    else
      var rest := Split(s[1..], sep);
      if s[0] == sep then [""] + rest
      else
        assert sep !in [s[0]] + rest[0];
        [[s[0]] + rest[0]] + rest[1..]
  }

  /** `sep.join(parts)`: the first piece, then a separator before each
      further piece. */
  function Join(parts: seq<string>, sep: char): (r: string)
    requires |parts| >= 1
    ensures parts[0] <= r
    ensures |parts| == 1 <==> r == parts[0]
    ensures |parts| > 1 ==> |r| > |parts[0]| && r[|parts[0]|] == sep
  {
    if |parts| == 1 then parts[0] else parts[0] + [sep] + Join(parts[1..], sep)
  }

  /** Joining the pieces of a split gives back the string. */
  lemma {:induction false} JoinSplit(s: string, sep: char)
    ensures Join(Split(s, sep), sep) == s
  {
    if s != [] {
      JoinSplit(s[1..], sep);
      var rest := Split(s[1..], sep);
      if s[0] == sep {
        assert ([""] + rest)[1..] == rest;
      } else {
        var parts := [[s[0]] + rest[0]] + rest[1..];
        if |rest| == 1 {
          assert parts == [[s[0]] + rest[0]];
        } else {
          assert parts[1..] == rest[1..];
          assert Join(rest, sep) == rest[0] + [sep] + Join(rest[1..], sep);
        }
      }
    }
  }

  /** Splitting a join of separator-free pieces gives back the pieces. */
  lemma {:induction false} SplitJoin(parts: seq<string>, sep: char)
    requires |parts| >= 1
    requires forall i :: 0 <= i < |parts| ==> sep !in parts[i]
    ensures Split(Join(parts, sep), sep) == parts
    decreases |parts|, |parts[0]|
  {
    var p := parts[0];
    if p == [] {
      if |parts| > 1 {
        var tail := parts[1..];
        SplitJoin(tail, sep);
        assert Join(parts, sep) == [sep] + Join(tail, sep);
        assert ([sep] + Join(tail, sep))[1..] == Join(tail, sep);
        assert parts == [""] + tail;
      }
    } else {
      var shorter := [p[1..]] + parts[1..];
      assert forall i :: 1 <= i < |shorter| ==> shorter[i] == parts[i];
      assert sep !in p[1..] by {
        assert forall k :: 0 <= k < |p[1..]| ==> p[1..][k] == p[k + 1];
      }
      SplitJoin(shorter, sep);
      JoinFirstChar(parts, sep);
      SplitFirstChar(p[0], Join(shorter, sep), sep);
      assert shorter[1..] == parts[1..];
      assert [p[0]] + p[1..] == p;
      assert parts == [p] + parts[1..];
    }
  }

  /** A join whose first piece is not empty starts with that piece's first
      character, followed by the join with that character removed. */
  lemma JoinFirstChar(parts: seq<string>, sep: char)
    requires |parts| >= 1 && parts[0] != []
    ensures Join(parts, sep) == [parts[0][0]] + Join([parts[0][1..]] + parts[1..], sep)
  {
    var p := parts[0];
    var shorter := [p[1..]] + parts[1..];
    if |parts| > 1 {
      assert shorter[1..] == parts[1..];
    }
    assert p == [p[0]] + p[1..];
  }

  /** A leading character other than the separator joins the first piece. */
  lemma SplitFirstChar(c: char, s: string, sep: char)
    requires c != sep
    ensures Split([c] + s, sep) == [[c] + Split(s, sep)[0]] + Split(s, sep)[1..]
  {
    assert ([c] + s)[1..] == s;
  }

  /** The characters `str.strip()` removes: ASCII whitespace, including the
      file, group, record and unit separators that Python counts as space. */
  predicate IsSpace(ch: char)
  {
    ch == ' ' || ('\t' <= ch <= '\r') || (0x1c <= ch as int <= 0x1f)
  }

  /** `r` is a slice of `s` with only whitespace outside it. */
  ghost predicate TrimmedFrom(r: string, s: string)
  {
    exists i, j ::
      && 0 <= i <= j <= |s| && r == s[i..j]
      && (forall k :: 0 <= k < i ==> IsSpace(s[k]))
      && (forall k :: j <= k < |s| ==> IsSpace(s[k]))
  }

  /** `s.strip()`: leading and trailing whitespace removed. */
  function Strip(s: string): (r: string)
    ensures TrimmedFrom(r, s)
    ensures r != [] ==> !IsSpace(r[0]) && !IsSpace(r[|r| - 1])
  {
    var i := SpacePrefix(s, 0);
    var j := SpaceSuffix(s, |s|, i);
    s[i..j]
  }

  /** The end of the run of whitespace that starts at `from`. */
  function SpacePrefix(s: string, from: nat): (i: nat)
    requires from <= |s|
    ensures from <= i <= |s|
    ensures forall k :: from <= k < i ==> IsSpace(s[k])
    ensures i < |s| ==> !IsSpace(s[i])
    decreases |s| - from
  {
    if from == |s| || !IsSpace(s[from]) then from else SpacePrefix(s, from + 1)
  }

  /** The start of the run of whitespace that ends at `hi`, not before `lo`. */
  function SpaceSuffix(s: string, hi: nat, lo: nat): (j: nat)
    requires lo <= hi <= |s|
    ensures lo <= j <= hi
    ensures forall k :: j <= k < hi ==> IsSpace(s[k])
    ensures j > lo ==> !IsSpace(s[j - 1])
    decreases hi
  {
    if hi == lo || !IsSpace(s[hi - 1]) then hi else SpaceSuffix(s, hi - 1, lo)
  }

  /** get_current_folder: "/" for fewer than five components; otherwise
      components 1 to 3 are dropped, the rest joined with '/' and stripped. */
  function GetCurrentFolder(rootFolder: string): (r: string)
    ensures |Split(rootFolder, Backslash)| < 5 ==> r == "/"
    ensures var parts := Split(rootFolder, Backslash);
      |parts| >= 5 ==> TrimmedFrom(r, Join([parts[0]] + parts[4..], Slash))
    ensures |Split(rootFolder, Backslash)| >= 5 && r != [] ==> !IsSpace(r[0]) && !IsSpace(r[|r| - 1])
    ensures Backslash !in r
  {
    var parts := Split(rootFolder, Backslash);
    if |parts| < 5 then "/"
    else
      var kept := [parts[0]] + parts[4..];
      assert forall i :: 0 <= i < |kept| ==> kept[i] in parts;
      JoinAvoids(kept, Slash, Backslash);
      Strip(Join(kept, Slash))
  }

  /** The result is the stripped join of the first component and every
      component from the fifth on; when no component holds a '/', that join
      splits back into exactly those components, in order. */
  lemma CurrentFolderMeaning(rootFolder: string)
    ensures var parts := Split(rootFolder, Backslash);
      && (|parts| < 5 ==> GetCurrentFolder(rootFolder) == "/")
      && (|parts| >= 5 ==> TrimmedFrom(GetCurrentFolder(rootFolder), Join([parts[0]] + parts[4..], Slash)))
      && (|parts| >= 5 && GetCurrentFolder(rootFolder) != [] ==>
            !IsSpace(GetCurrentFolder(rootFolder)[0])
            && !IsSpace(GetCurrentFolder(rootFolder)[|GetCurrentFolder(rootFolder)| - 1]))
      && (|parts| >= 5 && (forall i :: 0 <= i < |parts| ==> Slash !in parts[i]) ==>
            Split(Join([parts[0]] + parts[4..], Slash), Slash) == [parts[0]] + parts[4..])
      && Backslash !in GetCurrentFolder(rootFolder)
  {
    var parts := Split(rootFolder, Backslash);
    if |parts| >= 5 {
      var kept := [parts[0]] + parts[4..];
      if forall i :: 0 <= i < |parts| ==> Slash !in parts[i] {
        assert forall i :: 0 <= i < |kept| ==> kept[i] in parts;
        SplitJoin(kept, Slash);
      }
    }
  }

  /** A join contains a character only if a piece or the separator does. */
  lemma {:induction false} JoinAvoids(parts: seq<string>, sep: char, ch: char)
    requires |parts| >= 1
    requires ch != sep
    requires forall i :: 0 <= i < |parts| ==> ch !in parts[i]
    ensures ch !in Join(parts, sep)
  {
    if |parts| > 1 {
      JoinAvoids(parts[1..], sep, ch);
    }
  }
}
