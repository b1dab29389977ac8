/** The functions of Go's `strings` package that the discovery code calls,
    over strings as sequences of characters. */
module GoStrings {

  /** `key` occurs in `s` starting at index `i`. */
  predicate OccursAt(s: string, key: string, i: int)
  {
    0 <= i && i + |key| <= |s| && s[i..i + |key|] == key
  }

  /** `strings.HasPrefix(s, prefix)`. */
  predicate HasPrefix(s: string, prefix: string)
  {
    |prefix| <= |s| && s[..|prefix|] == prefix
  }

  /** The first index at or after `from` where `key` occurs in `s`, or -1. */
  function IndexFrom(s: string, key: string, from: nat): (r: int)
    ensures r == -1 || (from <= r && OccursAt(s, key, r))
    ensures forall j :: from <= j && (r == -1 || j < r) ==> !OccursAt(s, key, j)
    decreases |s| - from
  {
    if from + |key| > |s| then -1
    else if s[from..from + |key|] == key then from
    else IndexFrom(s, key, from + 1)
  }

  /** `strings.Index(s, key)`: the first occurrence of `key` in `s`, or -1. */
  function Index(s: string, key: string): (r: int)
    ensures r >= 0 <==> exists j :: OccursAt(s, key, j)
    ensures r >= 0 ==> OccursAt(s, key, r) && forall j :: 0 <= j < r ==> !OccursAt(s, key, j)
    ensures r < 0 ==> r == -1
  {
    IndexFrom(s, key, 0)
  }

  /** `strings.Contains(s, key)`. */
  predicate Contains(s: string, key: string)
  {
    Index(s, key) >= 0
  }

  /** The first index at or after `from` holding `c`, or `|s|` when there is none. */
  function IndexOfChar(s: string, c: char, from: nat): (k: nat)
    requires from <= |s|
    ensures from <= k <= |s|
    ensures k < |s| ==> s[k] == c
    ensures forall j :: from <= j < k ==> s[j] != c
    decreases |s| - from
  {
    if from == |s| || s[from] == c then from else IndexOfChar(s, c, from + 1)
  }

  /** `strings.Join(parts, sep)`. */
  function Join(parts: seq<string>, sep: string): string
  {
    if |parts| == 0 then ""
    else if |parts| == 1 then parts[0]
    else parts[0] + sep + Join(parts[1..], sep)
  }

  /** `strings.Split(s, sep)` for a one-character separator: the pieces of `s`
      between the occurrences of `sep`; joining them with `sep` gives `s` back. */
  function Split(s: string, sep: char): (parts: seq<string>)
    ensures |parts| >= 1
    ensures forall i :: 0 <= i < |parts| ==> sep !in parts[i]
    ensures Join(parts, [sep]) == s
    decreases |s|
  {
    var k := IndexOfChar(s, sep, 0);
    if k == |s| then
      [s]
    else
      var rest := Split(s[k + 1..], sep);
      assert ([s[..k]] + rest)[1..] == rest;
      assert s == s[..k] + [sep] + s[k + 1..];
      [s[..k]] + rest
  }

  /** The first piece of a split is the longest prefix without the separator. */
  lemma SplitFirst(s: string, sep: char)
    ensures Split(s, sep)[0] == s[..IndexOfChar(s, sep, 0)]
    ensures HasPrefix(s, Split(s, sep)[0])
    ensures var f := Split(s, sep)[0]; |f| == |s| || s[|f|] == sep
  {
  }

  /** Splitting undoes joining, when no piece holds the separator. */
  lemma {:induction false} SplitJoin(parts: seq<string>, sep: char)
    requires |parts| >= 1
    requires forall i :: 0 <= i < |parts| ==> sep !in parts[i]
    ensures Split(Join(parts, [sep]), sep) == parts
    decreases |parts|
  {
    var s := Join(parts, [sep]);
    var p := parts[0];
    if |parts| == 1 {
      assert s == p;
    } else {
      var tail := Join(parts[1..], [sep]);
      assert s == p + [sep] + tail;
      var k := IndexOfChar(s, sep, 0);
      assert s[|p|] == sep;
      assert k == |p|;
      assert s[..k] == p;
      assert s[k + 1..] == tail;
      SplitJoin(parts[1..], sep);
      assert parts == [p] + parts[1..];
    }
  }

  /** A joined string ends with its last piece, preceded by the separator
      whenever there is more than one piece. */
  lemma {:induction false} JoinEndsWithLast(parts: seq<string>, sep: string)
    requires |parts| >= 1
    ensures var s, last := Join(parts, sep), parts[|parts| - 1];
            |last| <= |s| && s[|s| - |last|..] == last &&
            (|parts| > 1 ==> |last| + |sep| <= |s| && s[|s| - |last| - |sep|..|s| - |last|] == sep)
    decreases |parts|
  {
    if |parts| > 1 {
      JoinEndsWithLast(parts[1..], sep);
      var tail := Join(parts[1..], sep);
      assert Join(parts, sep) == parts[0] + sep + tail;
      assert parts[1..][|parts[1..]| - 1] == parts[|parts| - 1];
    }
  }
}
