/** `extractValueFromScopes` and `extractProfilesFromScopes`: reading the
    space-separated scope URIs of a discovery reply. */
module ScopeExtractor {
  import opened GoRuntime
  import opened GoStrings

  /** Scope tokens that name a supported profile start with this. */
  const ProfilePrefix: string := "onvif://www.onvif.org/Profile"

  /** `extractValueFromScopes(scopes, key)`: the text that starts one character
      past the end of the first occurrence of `key`, up to the next space. The
      search is a plain substring search, so `key` may be found inside another
      token. When that occurrence ends the string, skipping the separator
      slices past the end and Go panics. */
  function ExtractValueFromScopes(scopes: string, key: string): (r: Outcome<string>)
    ensures !Contains(scopes, key) ==> r == Ok("")
    ensures r.Panic? <==> Contains(scopes, key) && Index(scopes, key) + |key| == |scopes|
    ensures r.Panic? ==> r.reason == SliceBoundsOutOfRange
    ensures r.Ok? ==> ' ' !in r.value
    ensures r.Ok? && r.value != "" ==> Contains(scopes, key)
    ensures r.Ok? && Contains(scopes, key) ==>
              var start := Index(scopes, key) + |key| + 1;
              && start <= |scopes|
              && HasPrefix(scopes[start..], r.value)
              && (start + |r.value| == |scopes| || scopes[start + |r.value|] == ' ')
  {
    if Contains(scopes, key) then
      var start := Index(scopes, key) + |key| + 1;
      if start > |scopes| then
        Panic(SliceBoundsOutOfRange)
      else
        SplitFirst(scopes[start..], ' ');
        Ok(Split(scopes[start..], ' ')[0])
    else
      Ok("")
  }

  /** The converse of the contract above: a value that starts one character
      past the first occurrence of `key` and runs up to a space or the end of
      the scopes is the value extracted. */
  lemma ExtractValueDetermined(scopes: string, key: string, i: nat, v: string)
    requires OccursAt(scopes, key, i) && forall j :: 0 <= j < i ==> !OccursAt(scopes, key, j)
    requires i + |key| + 1 + |v| <= |scopes| && scopes[i + |key| + 1..i + |key| + 1 + |v|] == v
    requires ' ' !in v
    requires i + |key| + 1 + |v| == |scopes| || scopes[i + |key| + 1 + |v|] == ' '
    ensures ExtractValueFromScopes(scopes, key) == Ok(v)
  {
    assert Index(scopes, key) == i;
    var t := scopes[i + |key| + 1..];
    assert t[..|v|] == v;
    TokenUnique(t, ExtractValueFromScopes(scopes, key).value, v);
  }

  /** Two prefixes without a space that each run up to a space or the end
      are the same prefix. */
  lemma TokenUnique(t: string, w: string, v: string)
    requires HasPrefix(t, w) && ' ' !in w && (|w| == |t| || t[|w|] == ' ')
    requires HasPrefix(t, v) && ' ' !in v && (|v| == |t| || t[|v|] == ' ')
    ensures w == v
  {
  }

  /** The key is matched case-sensitively: a lower-case `mac` scope gives
      nothing for the key `MAC`. */
  lemma MacKeyIsCaseSensitive()
    ensures ExtractValueFromScopes("onvif://www.onvif.org/mac/AA", "MAC") == Ok("")
  {
    var s := "onvif://www.onvif.org/mac/AA";
    assert 'M' !in s;
    FirstLetterAbsent(s, "MAC");
  }

  /** A scope `P + key + "/" + V` whose prefix `P` lacks the key's first
      letter gives the value `V` for that key, whatever scopes follow it. */
  lemma ValueAfterFreshKey(P: string, key: string, V: string, rest: string)
    requires |key| > 0 && key[0] !in P && ' ' !in V
    ensures ExtractValueFromScopes(P + key + "/" + V + " " + rest, key) == Ok(V)
  {
    var s := P + key + "/" + V + " " + rest;
    assert s[|P|..|P| + |key|] == key;
    assert s[|P| + |key| + 1..|P| + |key| + 1 + |V|] == V;
    assert s[|P| + |key| + 1 + |V|] == ' ';
    forall j | 0 <= j < |P| ensures !OccursAt(s, key, j) {
      assert s[j] == P[j];
      assert s[j..j + |key|][0] == s[j];
    }
    ExtractValueDetermined(s, key, |P|, V);
  }

  /** The value of the `mac` key is the rest of its own scope token. */
  lemma MacValueExample(rest: string)
    ensures ExtractValueFromScopes("onvif://www.onvif.org/mac/AA:BB:CC:DD:EE:FF" + " " + rest, "mac")
            == Ok("AA:BB:CC:DD:EE:FF")
  {
    MacScopeParts();
    ValueAfterFreshKey("onvif://www.onvif.org/", "mac", "AA:BB:CC:DD:EE:FF", rest);
  }

  lemma MacScopeParts()
    ensures "onvif://www.onvif.org/mac/AA:BB:CC:DD:EE:FF"
            == "onvif://www.onvif.org/" + "mac" + "/" + "AA:BB:CC:DD:EE:FF"
    ensures 'm' !in "onvif://www.onvif.org/" && ' ' !in "AA:BB:CC:DD:EE:FF"
  {
    MacScopeLetters();
  }

  lemma MacScopeLetters()
    ensures 'm' !in "onvif://www.onvif.org/" && ' ' !in "AA:BB:CC:DD:EE:FF"
  {
  }

  /** A key whose first letter is not in `s` does not occur in it. */
  lemma FirstLetterAbsent(s: string, key: string)
    requires |key| > 0 && key[0] !in s
    ensures !Contains(s, key)
  {
  }

  /** A scope string that ends with the bare key, whose first letter is not
      used before it, makes the extraction panic. */
  lemma BareKeyAtEndPanics(P: string, key: string)
    requires |key| > 0 && key[0] !in P
    ensures ExtractValueFromScopes(P + key, key) == Panic(SliceBoundsOutOfRange)
  {
    var s := P + key;
    assert s[|P|..|P| + |key|] == key;
    assert OccursAt(s, key, |P|);
    forall j | 0 <= j < |P| ensures !OccursAt(s, key, j) {
      assert s[j] == P[j];
      assert s[j..j + |key|][0] == s[j];
    }
  }

  /** The scope `onvif://www.onvif.org/hardware`, with nothing after the key,
      makes reading `hardware` panic. */
  lemma BareHardwareScopePanics()
    ensures ExtractValueFromScopes("onvif://www.onvif.org/hardware", "hardware").Panic?
  {
    HardwareScopeParts();
    BareKeyAtEndPanics("onvif://www.onvif.org/", "hardware");
  }

  lemma HardwareScopeParts()
    ensures "onvif://www.onvif.org/hardware" == "onvif://www.onvif.org/" + "hardware"
    ensures 'h' !in "onvif://www.onvif.org/"
  {
  }

  /** The last `/`-separated segment of a token: the longest suffix without `/`. */
  function LastSegment(token: string): (seg: string)
    ensures '/' !in seg
    ensures |seg| <= |token| && token[|token| - |seg|..] == seg
    ensures |seg| < |token| ==> token[|token| - |seg| - 1] == '/'
  {
    var parts := Split(token, '/');
    JoinEndsWithLast(parts, "/");
    parts[|parts| - 1]
  }

  /** What one scope token contributes to the profile list. */
  function ProfileOf(token: string): seq<string>
  {
    if HasPrefix(token, ProfilePrefix) then [LastSegment(token)] else []
  }

  /** The profile list of a sequence of scope tokens, in token order. */
  function Profiles(tokens: seq<string>): (r: seq<string>)
    ensures |r| <= |tokens|
    decreases |tokens|
  {
    if tokens == [] then [] else Profiles(tokens[..|tokens| - 1]) + ProfileOf(tokens[|tokens| - 1])
  }

  /** `extractProfilesFromScopes(scopes)`: the last path segment of every
      scope token that starts with the profile prefix. */
  method ExtractProfilesFromScopes(scopes: string) returns (profile: seq<string>)
    ensures profile == Profiles(Split(scopes, ' '))
    ensures |profile| <= |Split(scopes, ' ')|
  {
    profile := [];
    var tokens := Split(scopes, ' ');
    for i := 0 to |tokens|
      invariant profile == Profiles(tokens[..i])
    {
      var scope := tokens[i];
      if HasPrefix(scope, ProfilePrefix) {
        profile := profile + [LastSegment(scope)];
      }
      assert tokens[..i + 1][..i] == tokens[..i];
    }
    assert tokens[..|tokens|] == tokens;
  }

  /** The profile list of two runs of tokens is the two lists one after the
      other: token order is kept, and nothing is merged or dropped. */
  lemma {:induction false} ProfilesAppend(a: seq<string>, b: seq<string>)
    ensures Profiles(a + b) == Profiles(a) + Profiles(b)
    decreases |b|
  {
    if b == [] {
      assert a + b == a;
    } else {
      var b', last := b[..|b| - 1], b[|b| - 1];
      assert b == b' + [last];
      assert a + b == (a + b') + [last];
      ProfilesAppend(a, b');
      ProfilesSnoc(a + b', last);
      ProfilesSnoc(b', last);
      AppendAssoc(Profiles(a), Profiles(b'), ProfileOf(last));
    }
  }

  lemma AppendAssoc(x: seq<string>, y: seq<string>, z: seq<string>)
    ensures x + y + z == x + (y + z)
  {
  }

  /** One more token adds what that token contributes, at the end. */
  lemma ProfilesSnoc(tokens: seq<string>, t: string)
    ensures Profiles(tokens + [t]) == Profiles(tokens) + ProfileOf(t)
  {
    assert (tokens + [t])[..|tokens|] == tokens;
  }


  /** Every entry of the profile list is the last segment of a token that
      starts with the profile prefix. */
  lemma {:induction false} ProfilesFromProfileTokens(tokens: seq<string>, x: string)
    requires x in Profiles(tokens)
    ensures exists i :: 0 <= i < |tokens| && HasPrefix(tokens[i], ProfilePrefix) && x == LastSegment(tokens[i])
    decreases |tokens|
  {
    var init := tokens[..|tokens| - 1];
    if x in Profiles(init) {
      ProfilesFromProfileTokens(init, x);
      var i :| 0 <= i < |init| && HasPrefix(init[i], ProfilePrefix) && x == LastSegment(init[i]);
      assert tokens[i] == init[i];
    } else {
      assert HasPrefix(tokens[|tokens| - 1], ProfilePrefix);
    }
  }

  /** Every token with the profile prefix has its last segment listed. */
  lemma {:induction false} ProfileTokensListed(tokens: seq<string>, i: nat)
    requires i < |tokens| && HasPrefix(tokens[i], ProfilePrefix)
    ensures LastSegment(tokens[i]) in Profiles(tokens)
    decreases |tokens|
  {
    var init := tokens[..|tokens| - 1];
    if i < |init| {
      assert init[i] == tokens[i];
      ProfileTokensListed(init, i);
    }
  }

}
