/** The per-share file-type table: each file name yields an extension key
    (the text after its last dot, lower-cased, or a single space when the name
    has no dot) and the table counts how many files carried each key. */
module FileTypes {

  import opened Wrappers

  /** The key used for a file name with no dot at all. */
  const NoExtension: string := " "

  /** ASCII lower-casing of one character. */
  function LowerChar(ch: char): (r: char)
    ensures 'A' <= ch <= 'Z' ==> r as int == ch as int + 32
    ensures !('A' <= ch <= 'Z') ==> r == ch
  {
    if 'A' <= ch <= 'Z' then (ch as int + 32) as char else ch
  }

  function Lower(s: string): (r: string)
    ensures |r| == |s|
    ensures forall i :: 0 <= i < |s| ==> r[i] == LowerChar(s[i])
  {
    if s == [] then [] else [LowerChar(s[0])] + Lower(s[1..])
  }

  /** The index of the last '.' in `s`, if there is one. */
  function LastDot(s: string): (r: Option<nat>)
    ensures r.None? <==> '.' !in s
    ensures r.Some? ==> r.value < |s| && s[r.value] == '.' && '.' !in s[r.value + 1..]
  {
    if s == [] then None
    else if s[|s| - 1] == '.' then Some(|s| - 1)
    else
      var r := LastDot(s[..|s| - 1]);
      assert s == s[..|s| - 1] + [s[|s| - 1]];
      if r.Some? then
        assert s[r.value + 1..] == s[..|s| - 1][r.value + 1..] + [s[|s| - 1]];
        r
      else r
  }

  /** The extension key of a file name: `filename.rsplit('.', 1)[1].lower()`,
      or the single-space key when the split yields one part. */
  function TypeKey(filename: string): (r: string)
    ensures '.' !in filename ==> r == NoExtension
    ensures '.' in filename ==> |r| < |filename| && '.' !in r
  {
    match LastDot(filename)
    case None => NoExtension
    case Some(i) =>
      LowerKeepsNoDot(filename[i + 1..]);
      Lower(filename[i + 1..])
  }

  /** A name with no dot gets the single-space key; otherwise the key is the
      lower-cased text after the last dot, and it holds no dot itself. */
  lemma TypeKeyMeaning(filename: string)
    ensures '.' !in filename ==> TypeKey(filename) == NoExtension
    ensures '.' in filename ==>
      exists i :: 0 <= i < |filename| && filename[i] == '.' && '.' !in filename[i + 1..]
        && TypeKey(filename) == Lower(filename[i + 1..])
    ensures '.' !in TypeKey(filename)
  {
    match LastDot(filename)
    case None =>
    case Some(i) =>
      var suffix := filename[i + 1..];
      assert TypeKey(filename) == Lower(suffix);
      LowerKeepsNoDot(suffix);
  }

  /** Lower-casing never makes a dot. */
  lemma {:induction false} LowerKeepsNoDot(s: string)
    requires '.' !in s
    ensures '.' !in Lower(s)
  {
    if s != [] {
      assert s == [s[0]] + s[1..];
      LowerKeepsNoDot(s[1..]);
    }
  }

  lemma TypeKeyExamples()
    ensures TypeKey("archive.tar.gz") == "gz"
    ensures TypeKey("report.TXT") == "txt"
    ensures TypeKey("README") == " "
    ensures TypeKey("x.") == ""
  {
    LastDotOfArchive();
    assert "archive.tar.gz"[12..] == "gz";
    LastDotOfReport();
    assert "report.TXT"[7..] == "TXT";
    assert Lower("TXT") == "txt";
    assert '.' !in "README";
  }

  lemma LastDotOfArchive()
    ensures LastDot("archive.tar.gz") == Some(11)
  {
    assert "archive.tar.gz"[..13] == "archive.tar.g";
    assert "archive.tar.g"[..12] == "archive.tar.";
  }

  lemma LastDotOfReport()
    ensures LastDot("report.TXT") == Some(6)
  {
    assert "report.TXT"[..9] == "report.TX";
    assert "report.TX"[..8] == "report.T";
    assert "report.T"[..7] == "report.";
  }

  // ---------------------------------------------------------------------------
  // The type table

  /** A dictionary from extension key to count, with its keys in insertion
      order (the order in which Python's dict iterates them). */
  datatype TypeTable = TypeTable(order: seq<string>, counts: map<string, nat>)

  const EmptyTable: TypeTable := TypeTable([], map[])

  /** The keys are listed once each, exactly the keys of the map, and every
      key was counted at least once. */
  ghost predicate TableValid(t: TypeTable)
  {
    && (forall i, j :: 0 <= i < j < |t.order| ==> t.order[i] != t.order[j])
    && (forall k :: k in t.counts <==> k in t.order)
    && (forall k :: k in t.counts ==> t.counts[k] >= 1)
  }

  /** The count of `key`, zero when absent. */
  function CountOf(t: TypeTable, key: string): nat
  {
    if key in t.counts then t.counts[key] else 0
  }

  /** The sum of the counts of `keys`. */
  function SumCounts(keys: seq<string>, counts: map<string, nat>): nat
  {
    if keys == [] then 0
    else (if keys[0] in counts then counts[keys[0]] else 0) + SumCounts(keys[1..], counts)
  }

  /** The number of files the table has counted. */
  function Total(t: TypeTable): nat
  {
    SumCounts(t.order, t.counts)
  }

  /** update_type: derive the key of `filename` and count it once more,
      starting at 1 when the key is new. */
  function UpdateType(filename: string, types: TypeTable): (r: TypeTable)
    ensures CountOf(r, TypeKey(filename)) == CountOf(types, TypeKey(filename)) + 1
    ensures forall k :: k != TypeKey(filename) ==> CountOf(r, k) == CountOf(types, k)
    ensures r.counts.Keys == types.counts.Keys + {TypeKey(filename)}
    ensures r.order == if TypeKey(filename) in types.counts then types.order else types.order + [TypeKey(filename)]
  {
    var key := TypeKey(filename);
    if key in types.counts then
      TypeTable(types.order, types.counts[key := types.counts[key] + 1])
    else
      TypeTable(types.order + [key], types.counts[key := 1])
  }

  /** Counting a file keeps the table well formed and raises its total by 1. */
  lemma UpdateTypeKeepsValid(filename: string, types: TypeTable)
    requires TableValid(types)
    ensures TableValid(UpdateType(filename, types))
    ensures Total(UpdateType(filename, types)) == Total(types) + 1
  {
    var key := TypeKey(filename);
    if key in types.counts {
      SumCountsBump(types.order, types.counts, key);
    } else {
      SumCountsAppendFresh(types.order, types.counts, key);
    }
  }

  lemma {:induction false} SumCountsAgree(keys: seq<string>, m1: map<string, nat>, m2: map<string, nat>)
    requires forall k :: k in keys ==> (k in m1 <==> k in m2) && (k in m1 ==> m1[k] == m2[k])
    ensures SumCounts(keys, m1) == SumCounts(keys, m2)
  {
    if keys != [] {
      SumCountsAgree(keys[1..], m1, m2);
    }
  }

  /** Adding a new key at the end of the order with count 1 adds 1. */
  lemma {:induction false} SumCountsAppendFresh(keys: seq<string>, counts: map<string, nat>, key: string)
    requires key !in keys
    ensures SumCounts(keys + [key], counts[key := 1]) == SumCounts(keys, counts) + 1
  {
    if keys == [] {
      assert [] + [key] == [key];
      assert [key][1..] == [];
    } else {
      assert (keys + [key])[1..] == keys[1..] + [key];
      SumCountsAppendFresh(keys[1..], counts, key);
    }
  }

  /** Raising the count of a key listed exactly once raises the sum by 1. */
  lemma {:induction false} SumCountsBump(keys: seq<string>, counts: map<string, nat>, key: string)
    requires key in counts && key in keys
    requires forall i, j :: 0 <= i < j < |keys| ==> keys[i] != keys[j]
    ensures SumCounts(keys, counts[key := counts[key] + 1]) == SumCounts(keys, counts) + 1
  {
    if keys[0] == key {
      assert key !in keys[1..] by {
        forall i | 0 <= i < |keys[1..]| ensures keys[1..][i] != key {
          assert keys[1..][i] == keys[i + 1];
        }
      }
      SumCountsAgree(keys[1..], counts[key := counts[key] + 1], counts);
    } else {
      assert key in keys[1..] by {
        var i :| 0 <= i < |keys| && keys[i] == key;
        assert keys[1..][i - 1] == key;
      }
      SumCountsBump(keys[1..], counts, key);
    }
  }

  /** Counting a sequence of file names one after the other, as a walk does. */
  function TallyNames(types: TypeTable, names: seq<string>): TypeTable
    decreases names
  {
    if names == [] then types else TallyNames(UpdateType(names[0], types), names[1..])
  }

  lemma {:induction false} TallyNamesConcat(types: TypeTable, xs: seq<string>, ys: seq<string>)
    ensures TallyNames(types, xs + ys) == TallyNames(TallyNames(types, xs), ys)
    decreases xs
  {
    if xs == [] {
      assert xs + ys == ys;
    } else {
      assert (xs + ys)[0] == xs[0];
      assert (xs + ys)[1..] == xs[1..] + ys;
      TallyNamesConcat(UpdateType(xs[0], types), xs[1..], ys);
    }
  }

  /** After counting n names the table is still well formed and has counted
      n more files. */
  lemma {:induction false} TallyNamesTotal(types: TypeTable, names: seq<string>)
    requires TableValid(types)
    ensures TableValid(TallyNames(types, names))
    ensures Total(TallyNames(types, names)) == Total(types) + |names|
    decreases names
  {
    if names != [] {
      UpdateTypeKeepsValid(names[0], types);
      TallyNamesTotal(UpdateType(names[0], types), names[1..]);
    }
  }

  /** Each key's count rises by the number of names that map to it. */
  lemma {:induction false} TallyNamesCount(types: TypeTable, names: seq<string>, key: string)
    ensures CountOf(TallyNames(types, names), key) == CountOf(types, key) + KeyOccurrences(names, key)
    decreases names
  {
    if names != [] {
      TallyNamesCount(UpdateType(names[0], types), names[1..], key);
    }
  }

  /** How many of `names` have extension key `key`. */
  function KeyOccurrences(names: seq<string>, key: string): nat
  {
    if names == [] then 0
    else (if TypeKey(names[0]) == key then 1 else 0) + KeyOccurrences(names[1..], key)
  }
}
