/**
  The text normaliser of mapper.py: lower-casing, `&` to `and`, removal of
  everything that is neither a word character nor white space, and collapsing
  of white-space runs followed by trimming.
 */
module Normalizer {
  import opened Ascii

  predicate NoUpper(s: string) {
    forall i :: 0 <= i < |s| ==> !IsUpper(s[i])
  }

  predicate OnlyWordOrSpace(s: string) {
    forall i :: 0 <= i < |s| ==> IsWordChar(s[i]) || IsSpace(s[i])
  }

  /** White space at positions `i` and `i + 1` of `s`. */
  predicate SpacePairAt(s: string, i: int)
    requires 0 <= i < |s| - 1
  {
    IsSpace(s[i]) && IsSpace(s[i + 1])
  }

  /** No two white-space characters are adjacent. */
  predicate NoSpacePair(s: string) {
    forall i :: 0 <= i < |s| - 1 ==> !SpacePairAt(s, i)
  }

  predicate AllSpaces(s: string) {
    forall i :: 0 <= i < |s| ==> IsSpace(s[i])
  }

  /** The only white space is the space character. */
  predicate SpacesAreBlanks(s: string) {
    forall i :: 0 <= i < |s| ==> IsSpace(s[i]) ==> s[i] == ' '
  }

  predicate AllNormalChars(s: string) {
    forall i :: 0 <= i < |s| ==> IsNormalChar(s[i])
  }

  /** The output invariant of normalisation. */
  predicate IsNormalized(t: string) {
    && AllNormalChars(t)
    && (t != [] ==> t[0] != ' ' && t[|t| - 1] != ' ')
    && NoSpacePair(t)
  }

  // ---- step 1: str.lower() ----

  function Lower(s: string): (r: string)
    ensures |r| == |s|
    ensures forall i :: 0 <= i < |s| ==> r[i] == ToLower(s[i])
  {
    if s == [] then [] else [ToLower(s[0])] + Lower(s[1..])
  }

  // ---- step 2: str.replace('&', 'and') ----

  function ReplaceAmpersand(s: string): (r: string)
    ensures '&' !in r
    ensures forall i :: 0 <= i < |r| ==> r[i] in s || r[i] in "and"
    ensures '&' !in s ==> r == s
  {
    if s == [] then []
    else (if s[0] == '&' then "and" else [s[0]]) + ReplaceAmpersand(s[1..])
  }

  /** Each `&` becomes exactly "and"; with `ReplaceAmpersandAppend` this fixes the step on every text. */
  lemma ReplaceAmpersandChar(c: char)
    ensures ReplaceAmpersand([c]) == if c == '&' then "and" else [c]
  {
  }

  // ---- step 3: re.sub(r'[^\w\s]', '', s) ----

  function RemovePunctuation(s: string): (r: string)
    ensures OnlyWordOrSpace(r)
    ensures NoUpper(s) ==> NoUpper(r)
    ensures OnlyWordOrSpace(s) ==> r == s
  {
    if s == [] then []
    else (if IsWordChar(s[0]) || IsSpace(s[0]) then [s[0]] else []) + RemovePunctuation(s[1..])
  }

  /** A word or white-space character is kept and any other is deleted; with `RemovePunctuationAppend` this fixes the filter. */
  lemma RemovePunctuationChar(c: char)
    ensures RemovePunctuation([c]) == if IsWordChar(c) || IsSpace(c) then [c] else []
  {
  }

  // ---- step 4: re.sub(r'\s+', ' ', s).strip() ----

  /** `s` without its leading white space (also `str.lstrip()`). */
  function DropLeadingSpaces(s: string): (r: string)
    ensures |r| <= |s| && r == s[|s| - |r|..]
    ensures AllSpaces(s[..|s| - |r|])
    ensures r != [] ==> !IsSpace(r[0])
  {
    if s != [] && IsSpace(s[0]) then DropLeadingSpaces(s[1..]) else s
  }

  /** `s` without its trailing white space (`str.rstrip()`). */
  function DropTrailingSpaces(s: string): (r: string)
    ensures |r| <= |s| && r == s[..|r|]
    ensures AllSpaces(s[|r|..])
    ensures r != [] ==> !IsSpace(r[|r| - 1])
  {
    if s != [] && IsSpace(s[|s| - 1]) then
      var r := DropTrailingSpaces(s[..|s| - 1]);
      assert s[|r|..] == s[..|s| - 1][|r|..] + [s[|s| - 1]];
      r
    else s
  }

  /** Every maximal run of white space replaced by one space. */
  function CollapseSpaces(s: string): (r: string)
    ensures forall i :: 0 <= i < |r| ==> r[i] == ' ' || (!IsSpace(r[i]) && r[i] in s)
    ensures NoSpacePair(r)
    ensures (r != [] && IsSpace(r[0])) <==> (s != [] && IsSpace(s[0]))
    decreases |s|
  {
    if s == [] then []
    else
      var head := if IsSpace(s[0]) then ' ' else s[0];
      var rest := CollapseSpaces(if IsSpace(s[0]) then DropLeadingSpaces(s) else s[1..]);
      ConsNoSpacePair(head, rest);
      [head] + rest
  }

  lemma ConsNoSpacePair(c: char, t: string)
    requires NoSpacePair(t)
    requires t != [] ==> !(IsSpace(c) && IsSpace(t[0]))
    ensures NoSpacePair([c] + t)
  {
    forall i | 0 <= i < |t| ensures !SpacePairAt([c] + t, i) {
      if i > 0 { assert !SpacePairAt(t, i - 1); }
    }
  }

  /** `str.strip()`. */
  function Strip(s: string): (r: string)
    ensures r != [] ==> !IsSpace(r[0]) && !IsSpace(r[|r| - 1])
    ensures s == [] || (!IsSpace(s[0]) && !IsSpace(s[|s| - 1])) ==> r == s
  {
    DropTrailingSpaces(DropLeadingSpaces(s))
  }

  /**
    `strip()` removes white space at the ends and nothing else: the result is
    the piece of the input between an all-white-space prefix and an
    all-white-space suffix.
   */
  lemma StripRemovesOnlyOuterSpaces(s: string)
    ensures exists lo: nat | lo + |Strip(s)| <= |s| ::
      Strip(s) == s[lo..lo + |Strip(s)|] && AllSpaces(s[..lo]) && AllSpaces(s[lo + |Strip(s)|..])
  {
    PieceBetweenSpaces(s, DropLeadingSpaces(s), Strip(s));
  }

  /**
    A prefix `r` of a suffix `d` of `s`, where `d` starts after white space
    and `r` is followed by white space, lies between white space in `s`.
   */
  lemma PieceBetweenSpaces(s: string, d: string, r: string)
    requires |d| <= |s| && d == s[|s| - |d|..] && AllSpaces(s[..|s| - |d|])
    requires |r| <= |d| && r == d[..|r|] && AllSpaces(d[|r|..])
    ensures exists lo: nat | lo + |r| <= |s| ::
      r == s[lo..lo + |r|] && AllSpaces(s[..lo]) && AllSpaces(s[lo + |r|..])
  {
    var lo := |s| - |d|;
    assert d[..|r|] == s[lo..lo + |r|];
    assert d[|r|..] == s[lo + |r|..];
  }

  /** normalize(description), mapper.py lines 7-24. */
  function Normalize(description: string): (r: string)
    ensures description == "" ==> r == ""
    ensures IsNormalized(r)
  {
    if description == "" then ""
    else
      var lowered := Lower(description);
      assert NoUpper(lowered);
      var replaced := ReplaceAmpersand(lowered);
      var cleaned := RemovePunctuation(replaced);
      var collapsed := CollapseSpaces(cleaned);
      CollapsedCharsAreNormal(lowered);
      StripKeepsNormalChars(collapsed);
      Strip(collapsed)
  }

  /** Steps 2 to 4 applied to lower-cased text leave only characters normalised text may hold. */
  lemma CollapsedCharsAreNormal(lowered: string)
    requires NoUpper(lowered)
    ensures AllNormalChars(CollapseSpaces(RemovePunctuation(ReplaceAmpersand(lowered))))
  {
    var replaced := ReplaceAmpersand(lowered);
    assert NoUpper(replaced);
    var cleaned := RemovePunctuation(replaced);
    assert NoUpper(cleaned);
    var collapsed := CollapseSpaces(cleaned);
    forall i | 0 <= i < |collapsed| ensures IsNormalChar(collapsed[i]) {
      if collapsed[i] != ' ' {
        var j :| 0 <= j < |cleaned| && cleaned[j] == collapsed[i];
      }
    }
  }

  /** Stripping a collapsed, lower-case text leaves a normalised text. */
  lemma StripKeepsNormalChars(c: string)
    requires AllNormalChars(c) && NoSpacePair(c)
    ensures IsNormalized(Strip(c))
  {
    var d := DropLeadingSpaces(c);
    assert d == c[|c| - |d|..|c|];
    SliceKeepsNormalChars(c, |c| - |d|, |c|);
    var r := DropTrailingSpaces(d);
    SliceKeepsNormalChars(d, 0, |r|);
  }

  lemma SliceKeepsNormalChars(c: string, lo: nat, hi: nat)
    requires lo <= hi <= |c|
    requires AllNormalChars(c) && NoSpacePair(c)
    ensures AllNormalChars(c[lo..hi]) && NoSpacePair(c[lo..hi])
  {
    var r := c[lo..hi];
    forall i | 0 <= i < |r| - 1 ensures !SpacePairAt(r, i) {
      assert r[i] == c[lo + i] && r[i + 1] == c[lo + i + 1];
      assert !SpacePairAt(c, lo + i);
    }
  }

  // ---- partners: reference definitions and algebraic laws ----

  /** `str.replace` works character by character: it distributes over concatenation. */
  lemma {:induction false} ReplaceAmpersandAppend(a: string, b: string)
    ensures ReplaceAmpersand(a + b) == ReplaceAmpersand(a) + ReplaceAmpersand(b)
  {
    if a == [] {
      assert a + b == b;
    } else {
      var piece := if a[0] == '&' then "and" else [a[0]];
      assert (a + b)[0] == a[0] && (a + b)[1..] == a[1..] + b;
      calc {
        ReplaceAmpersand(a + b);
        piece + ReplaceAmpersand(a[1..] + b);
        { ReplaceAmpersandAppend(a[1..], b); }
        piece + (ReplaceAmpersand(a[1..]) + ReplaceAmpersand(b));
        (piece + ReplaceAmpersand(a[1..])) + ReplaceAmpersand(b);
        ReplaceAmpersand(a) + ReplaceAmpersand(b);
      }
    }
  }

  /** Deleting punctuation is a filter: it distributes over concatenation. */
  lemma {:induction false} RemovePunctuationAppend(a: string, b: string)
    ensures RemovePunctuation(a + b) == RemovePunctuation(a) + RemovePunctuation(b)
  {
    if a == [] {
      assert a + b == b;
    } else {
      var piece := if IsWordChar(a[0]) || IsSpace(a[0]) then [a[0]] else [];
      assert (a + b)[0] == a[0] && (a + b)[1..] == a[1..] + b;
      calc {
        RemovePunctuation(a + b);
        piece + RemovePunctuation(a[1..] + b);
        { RemovePunctuationAppend(a[1..], b); }
        piece + (RemovePunctuation(a[1..]) + RemovePunctuation(b));
        (piece + RemovePunctuation(a[1..])) + RemovePunctuation(b);
        RemovePunctuation(a) + RemovePunctuation(b);
      }
    }
  }

  /**
    A reference definition of collapsing that looks at one character and its
    successor only: a non-space character is kept, a white-space character
    becomes one space when it ends its run and disappears otherwise.
   */
  function CollapseLocal(s: string): string {
    if s == [] then []
    else
      var piece := if !IsSpace(s[0]) then [s[0]] else if |s| > 1 && IsSpace(s[1]) then [] else " ";
      piece + CollapseLocal(s[1..])
  }

  lemma {:induction false} CollapseLocalRun(s: string)
    requires s != [] && IsSpace(s[0])
    ensures CollapseLocal(s) == " " + CollapseLocal(DropLeadingSpaces(s))
    decreases |s|
  {
    if |s| > 1 && IsSpace(s[1]) {
      CollapseLocalRun(s[1..]);
    }
  }

  /** Run-at-a-time collapsing agrees with the local reference definition. */
  lemma {:induction false} CollapseSpacesIsLocal(s: string)
    ensures CollapseSpaces(s) == CollapseLocal(s)
    decreases |s|
  {
    if s != [] {
      if IsSpace(s[0]) {
        CollapseLocalRun(s);
        CollapseSpacesIsLocal(DropLeadingSpaces(s));
      } else {
        CollapseSpacesIsLocal(s[1..]);
      }
    }
  }

  // ---- idempotence ----

  /** Collapsing leaves a text alone whose only white space is single spaces. */
  lemma CollapseSpacesIdentity(s: string)
    requires SpacesAreBlanks(s) && NoSpacePair(s)
    ensures CollapseSpaces(s) == s
  {
    CollapseSpacesIsLocal(s);
    CollapseLocalIdentity(s);
  }

  lemma {:induction false} CollapseLocalIdentity(s: string)
    requires SpacesAreBlanks(s) && NoSpacePair(s)
    ensures CollapseLocal(s) == s
  {
    if s != [] {
      var t := s[1..];
      forall i | 0 <= i < |t| - 1 ensures !SpacePairAt(t, i) {
        assert !SpacePairAt(s, i + 1);
      }
      CollapseLocalIdentity(t);
      assert |s| > 1 ==> !SpacePairAt(s, 0);
      assert s == [s[0]] + t;
    }
  }

  /** Normalised text is a fixed point of normalisation. */
  lemma NormalizedIsFixpoint(t: string)
    requires IsNormalized(t)
    ensures Normalize(t) == t
  {
    if t != "" {
      NormalizedCharFacts(t);
      CollapseSpacesIdentity(t);
      calc {
        Normalize(t);
        Strip(CollapseSpaces(RemovePunctuation(ReplaceAmpersand(Lower(t)))));
        { assert Lower(t) == t; }
        Strip(CollapseSpaces(RemovePunctuation(ReplaceAmpersand(t))));
        Strip(CollapseSpaces(RemovePunctuation(t)));
        Strip(CollapseSpaces(t));
        Strip(t);
        t;
      }
    }
  }

  lemma NormalizedCharFacts(t: string)
    requires IsNormalized(t)
    ensures NoUpper(t) && '&' !in t && OnlyWordOrSpace(t)
    ensures SpacesAreBlanks(t)
  {
    assert forall i :: 0 <= i < |t| ==> IsNormalChar(t[i]);
  }

  /** normalize(normalize(x)) == normalize(x). */
  lemma NormalizeIdempotent(s: string)
    ensures Normalize(Normalize(s)) == Normalize(s)
  {
    NormalizedIsFixpoint(Normalize(s));
  }

  /** The texts normalisation leaves unchanged are exactly the normalised ones. */
  lemma NormalizeFixpointIff(t: string)
    ensures Normalize(t) == t <==> IsNormalized(t)
  {
    if IsNormalized(t) {
      NormalizedIsFixpoint(t);
    }
  }
}
