/** `findTagValue`: the text of the first element whose name contains a tag,
    as the pattern `<[^/>]*TAG[^>]*>([^<]+)` finds it (leftmost match, greedy
    group). The pattern's meaning is written out as `MatchAt`, and a
    hand-written scanner is proved to return the group of its leftmost match. */
module TagExtractor {
  import opened GoRuntime
  import opened GoStrings

  predicate IsWordChar(c: char)
  {
    ('a' <= c <= 'z') || ('A' <= c <= 'Z') || ('0' <= c <= '9') || c == '_'
  }

  /** The tag is spliced into the pattern unescaped, so it has the pattern's
      literal meaning only when it is a plain identifier. */
  predicate IsPlainTag(tag: string)
  {
    forall i :: 0 <= i < |tag| ==> IsWordChar(tag[i])
  }

  /** `name` matches `[^/>]*TAG[^>]*` when it holds no `>`: the tag occurs in
      it with no `/` in front of that occurrence. */
  ghost predicate NameMatches(name: string, tag: string)
  {
    exists i :: OccursAt(name, tag, i) && forall j :: 0 <= j < i ==> name[j] != '/'
  }

  /** The pattern matches `s` from `p`: `<` at `p`, the element name up to the
      first `>` (at `q`) matches `[^/>]*TAG[^>]*`, and the group `([^<]+)`
      is the longest run of characters other than `<` from `q + 1`, ending
      at `e`, and is not empty. */
  ghost predicate MatchAt(s: string, tag: string, p: nat, q: nat, e: nat)
  {
    && p < q && q + 1 < e <= |s|
    && s[p] == '<' && s[q] == '>'
    && (forall j :: p < j < q ==> s[j] != '>')
    && NameMatches(s[p + 1..q], tag)
    && (forall j :: q < j < e ==> s[j] != '<')
    && (e == |s| || s[e] == '<')
  }

  /** Some match of the pattern starts at `p`. */
  ghost predicate Qualifies(s: string, tag: string, p: nat)
  {
    exists q: nat, e: nat :: MatchAt(s, tag, p, q, e)
  }

  /** A match: where its `<` and `>` are, and where its group ends. */
  datatype Match = Match(open: nat, close: nat, end: nat)

  /** Once its start is fixed, a match is fixed. */
  lemma MatchUnique(s: string, tag: string, p: nat, q: nat, e: nat, q': nat, e': nat)
    requires MatchAt(s, tag, p, q, e) && MatchAt(s, tag, p, q', e')
    ensures q == q' && e == e'
  {
  }

  /** Whether an element name matches `[^/>]*TAG[^>]*`: it is enough to look
      at the first occurrence of the tag and the first `/`. */
  predicate NameHasTag(name: string, tag: string)
    ensures NameHasTag(name, tag) <==> NameMatches(name, tag)
  {
    var i := Index(name, tag);
    i >= 0 && i <= IndexOfChar(name, '/', 0)
  }

  /** The match starting at `p`, if there is one. */
  function MatchFrom(s: string, tag: string, p: nat): (m: Option<Match>)
    requires p < |s|
    ensures m.Some? ==> m.value.open == p && MatchAt(s, tag, p, m.value.close, m.value.end)
    ensures m.None? ==> !Qualifies(s, tag, p)
  {
    if s[p] != '<' then None
    else
      var q := IndexOfChar(s, '>', p + 1);
      if q == |s| || !NameHasTag(s[p + 1..q], tag) || q + 1 == |s| || s[q + 1] == '<' then
        None
      else
        var e := IndexOfChar(s, '<', q + 1);
        Some(Match(p, q, e))
  }

  /** The leftmost match starting at or after `p`. */
  function FirstMatchFrom(s: string, tag: string, p: nat): (m: Option<Match>)
    requires p <= |s|
    ensures m.None? ==> forall k: nat :: p <= k ==> !Qualifies(s, tag, k)
    ensures m.Some? ==> && p <= m.value.open
                        && MatchAt(s, tag, m.value.open, m.value.close, m.value.end)
                        && forall k: nat :: p <= k < m.value.open ==> !Qualifies(s, tag, k)
    decreases |s| - p
  {
    if p == |s| then
      None
    else
      match MatchFrom(s, tag, p)
      case Some(m) => Some(m)
      case None => FirstMatchFrom(s, tag, p + 1)
  }

  /** `findTagValue(xml, tag)`: the group of the leftmost match, or "" when
      the pattern matches nowhere. What that means is `FindTagValueLeftmost`. */
  function FindTagValue(xml: string, tag: string): (r: string)
    ensures '<' !in r && |r| <= |xml|
  {
    match FirstMatchFrom(xml, tag, 0)
    case None => ""
    case Some(m) => xml[m.close + 1..m.end]
  }

  /** The value found is empty exactly when the pattern matches nowhere, and
      otherwise is the group of the leftmost match. */
  lemma FindTagValueLeftmost(xml: string, tag: string)
    requires IsPlainTag(tag)
    ensures FindTagValue(xml, tag) == "" <==> forall p: nat :: !Qualifies(xml, tag, p)
    ensures forall p: nat, q: nat, e: nat ::
              MatchAt(xml, tag, p, q, e) && (forall k: nat :: k < p ==> !Qualifies(xml, tag, k))
              ==> FindTagValue(xml, tag) == xml[q + 1..e]
  {
    match FirstMatchFrom(xml, tag, 0)
    case None =>
      forall p: nat, q: nat, e: nat | MatchAt(xml, tag, p, q, e) ensures false {
        assert Qualifies(xml, tag, p);
      }
    case Some(m) =>
      forall p: nat, q: nat, e: nat |
        MatchAt(xml, tag, p, q, e) && (forall k: nat :: k < p ==> !Qualifies(xml, tag, k))
        ensures p == m.open && q == m.close && e == m.end
      {
        assert Qualifies(xml, tag, p);
        assert Qualifies(xml, tag, m.open);
        MatchUnique(xml, tag, p, q, e, m.close, m.end);
      }
      assert Qualifies(xml, tag, m.open);
  }

  /** The value of a match with no match starting before it is its group. */
  lemma LeftmostMatchValue(xml: string, tag: string, p: nat, q: nat, e: nat)
    requires IsPlainTag(tag)
    requires MatchAt(xml, tag, p, q, e)
    requires forall k: nat :: k < p ==> !Qualifies(xml, tag, k)
    ensures FindTagValue(xml, tag) == xml[q + 1..e]
  {
    FindTagValueLeftmost(xml, tag);
  }

  /** A closing tag `</...>` never starts a match: the `/` stands before any
      occurrence of a non-empty tag in its name. */
  lemma ClosingTagNeverMatches(s: string, tag: string, p: nat)
    requires IsPlainTag(tag) && |tag| > 0
    requires p + 1 < |s| && s[p] == '<' && s[p + 1] == '/'
    ensures !Qualifies(s, tag, p)
  {
    forall q: nat, e: nat | MatchAt(s, tag, p, q, e) ensures false {
      var i := TagInMatch(s, tag, p, q, e);
    }
  }

  /** An element whose `>` is directly followed by `<` (an empty element
      `<X></X>`, or one whose first child follows without text) does not
      match there: the group needs at least one character. */
  lemma EmptyElementNeverMatches(s: string, tag: string, p: nat, q: nat)
    requires p < q && q + 1 < |s|
    requires s[p] == '<' && s[q] == '>' && forall j :: p < j < q ==> s[j] != '>'
    requires s[q + 1] == '<'
    ensures !Qualifies(s, tag, p)
  {
    forall q': nat, e': nat | MatchAt(s, tag, p, q', e') ensures false {
      MatchNameEnd(s, tag, p, q', e', q);
    }
  }

  /** The `>` of a match is the first `>` after its `<`. */
  lemma MatchNameEnd(s: string, tag: string, p: nat, q: nat, e: nat, q0: nat)
    requires MatchAt(s, tag, p, q, e)
    requires p < q0 < |s| && s[q0] == '>' && forall j :: p < j < q0 ==> s[j] != '>'
    ensures q == q0
  {
  }

  /** A text in which the tag does not occur has no value for it. */
  lemma NoTagNoValue(xml: string, tag: string)
    requires IsPlainTag(tag)
    requires !Contains(xml, tag)
    ensures FindTagValue(xml, tag) == ""
  {
    forall p: nat | Qualifies(xml, tag, p) ensures false {
      var q: nat, e: nat :| MatchAt(xml, tag, p, q, e);
      var i := TagInMatch(xml, tag, p, q, e);
    }
    FindTagValueLeftmost(xml, tag);
  }

  /** Where the tag stands in a match: inside the element name, with no `/`
      between the `<` and it. */
  lemma TagInMatch(s: string, tag: string, p: nat, q: nat, e: nat) returns (i: nat)
    requires MatchAt(s, tag, p, q, e)
    ensures p < i && i + |tag| <= q && OccursAt(s, tag, i)
    ensures forall j :: p < j < i ==> s[j] != '/'
  {
    var name := s[p + 1..q];
    var k :| OccursAt(name, tag, k) && forall j :: 0 <= j < k ==> name[j] != '/';
    i := p + 1 + k;
    assert s[i..i + |tag|] == name[k..k + |tag|];
    forall j | p < j < i ensures s[j] != '/' {
      assert s[j] == name[j - p - 1];
    }
  }

  /** No match starts inside a prefix `P` of `s` that ends with `>` (so
      every `<` in it is closed inside it) and lacks the tag's first letter. */
  lemma NoMatchInPrefix(s: string, P: string, tag: string, k: nat)
    requires |tag| > 0 && |P| <= |s| && s[..|P|] == P
    requires P != [] && P[|P| - 1] == '>' && tag[0] !in P
    requires k < |P|
    ensures !Qualifies(s, tag, k)
  {
    if Qualifies(s, tag, k) {
      var q: nat, e: nat :| MatchAt(s, tag, k, q, e);
      assert s[|P| - 1] == P[|P| - 1];
      var i := TagInMatch(s, tag, k, q, e);
      assert false;
    }
  }

  /** The value found in `P + W + "<" + ns + tag + ">" + V + "<" + R`: when
      nothing before the element can match (every `<` of `P` is closed inside
      `P`, the tag's first letter is not in `P`, and `W` holds no `<`), the
      value is the element's text `V`. This covers plain (`<XAddrs>`) and
      namespace-prefixed (`<d:XAddrs>`) elements alike. */
  lemma FirstElementText(P: string, W: string, ns: string, tag: string, V: string, R: string)
    requires IsPlainTag(tag) && |tag| > 0
    requires P == [] || P[|P| - 1] == '>'
    requires tag[0] !in P
    requires '<' !in W
    requires '/' !in ns && '>' !in ns
    requires V != [] && '<' !in V
    ensures FindTagValue(P + W + "<" + ns + tag + ">" + V + "<" + R, tag) == V
  {
    var s := P + W + "<" + ns + tag + ">" + V + "<" + R;
    var p := |P| + |W|;
    var q := p + 1 + |ns| + |tag|;
    ElementMatches(P + W, ns, tag, V, R);
    ElementPrefix(P + W, ns, tag, V, R);
    NoMatchBefore(P, W, s, tag);
    LeftmostMatchValue(s, tag, p, q, q + 1 + |V|);
  }

  lemma ElementPrefix(L: string, ns: string, tag: string, V: string, R: string)
    ensures var s := L + "<" + ns + tag + ">" + V + "<" + R;
            |L| <= |s| && s[..|L|] == L
  {
  }

  /** No match starts in `P + W` when every `<` of `P` is closed inside `P`,
      `P` lacks the tag's first letter and `W` holds no `<`. */
  lemma NoMatchBefore(P: string, W: string, s: string, tag: string)
    requires |tag| > 0
    requires P == [] || P[|P| - 1] == '>'
    requires tag[0] !in P
    requires '<' !in W
    requires |P| + |W| <= |s| && s[..|P| + |W|] == P + W
    ensures forall k: nat :: k < |P| + |W| ==> !Qualifies(s, tag, k)
  {
    forall k: nat | k < |P| + |W| ensures !Qualifies(s, tag, k) {
      assert s[k] == (P + W)[k];
      if k < |P| {
        assert s[..|P|] == P;
        NoMatchInPrefix(s, P, tag, k);
      }
    }
  }


  /** The element `"<" + ns + tag + ">" + V` right after `L` is a match whose
      group is `V`. */
  lemma ElementMatches(L: string, ns: string, tag: string, V: string, R: string)
    requires IsPlainTag(tag)
    requires '/' !in ns && '>' !in ns
    requires V != [] && '<' !in V
    ensures var s := L + "<" + ns + tag + ">" + V + "<" + R;
            var q := |L| + 1 + |ns| + |tag|;
            MatchAt(s, tag, |L|, q, q + 1 + |V|) && s[q + 1..q + 1 + |V|] == V
  {
    var s := L + "<" + ns + tag + ">" + V + "<" + R;
    var p := |L|;
    var q := p + 1 + |ns| + |tag|;
    var e := q + 1 + |V|;
    assert s[p] == '<' && s[q] == '>' && s[e] == '<';
    assert s[p + 1..q] == ns + tag;
    assert OccursAt(ns + tag, tag, |ns|);
    forall j | p < j < q ensures s[j] != '>' {
      if j - p - 1 < |ns| {
        assert s[j] == ns[j - p - 1];
      } else {
        assert s[j] == tag[j - p - 1 - |ns|];
        assert IsWordChar(tag[j - p - 1 - |ns|]);
      }
    }
    forall j | q < j < e ensures s[j] != '<' {
      assert s[j] == V[j - q - 1];
    }
    assert s[q + 1..e] == V;
  }
}
