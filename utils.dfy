/** pkg/utils/utils.go: the slug maker, the abstract JSON serialiser and the
    panic-trace formatter. */
module Utils {
  import opened Wrappers

  // ---------------------------------------------------------------------
  // Slug
  // ---------------------------------------------------------------------

  /** The characters the pattern `[^a-z0-9]+` does NOT match. */
  predicate IsSlugChar(c: char)
  {
    'a' <= c <= 'z' || '0' <= c <= '9'
  }

  /** Go's `unicode.ToLower` as far as it can produce a character of
      `[a-z0-9]`: ASCII capitals, KELVIN SIGN (U+212A, lowered to 'k') and
      LATIN CAPITAL LETTER I WITH DOT ABOVE (U+0130, lowered to 'i'). Every
      other character is left as it is. */
  function ToLowerChar(c: char): (l: char)
    // Exactly the slug characters and the three kinds of capital above come
    // out as slug characters.
    ensures IsSlugChar(l) <==> IsSlugChar(c) || 'A' <= c <= 'Z' || c == '\U{212A}' || c == '\U{0130}'
    ensures !('A' <= l <= 'Z')
    ensures IsSlugChar(c) || c == '-' ==> l == c
  {
    if 'A' <= c <= 'Z' then (c as int + 32) as char
    else if c == '\U{212A}' then 'k'
    else if c == '\U{0130}' then 'i'
    else c
  }

  /** Lower-casing a lower-cased character changes nothing. */
  lemma ToLowerCharIdempotent(c: char)
    ensures ToLowerChar(ToLowerChar(c)) == ToLowerChar(c)
  {
    if 'A' <= c <= 'Z' {
      assert 'a' <= ToLowerChar(c) <= 'z';
    }
  }

  /** strings.ToLower, character by character. */
  function ToLower(s: string): (r: string)
    ensures |r| == |s|
    ensures forall i :: 0 <= i < |s| ==> r[i] == ToLowerChar(s[i])
    ensures forall i :: 0 <= i < |r| ==> !('A' <= r[i] <= 'Z')
    ensures InSlugAlphabet(s) ==> r == s
  {
    seq(|s|, i requires 0 <= i < |s| => ToLowerChar(s[i]))
  }

  /** Lower-casing twice is lower-casing once. */
  lemma ToLowerIdempotent(s: string)
    ensures ToLower(ToLower(s)) == ToLower(s)
  {
    forall i | 0 <= i < |s|
      ensures ToLower(ToLower(s))[i] == ToLower(s)[i]
    {
      ToLowerCharIdempotent(s[i]);
    }
  }

  /** Skips the run of non-slug characters at the front of `s`. */
  function DropNonSlug(s: string): (r: string)
    ensures |r| <= |s|
  {
    if s == [] || IsSlugChar(s[0]) then s else DropNonSlug(s[1..])
  }

  /** What DropNonSlug drops is a run of non-slug characters, and what it
      keeps is the rest of `s`, starting at a slug character. */
  lemma {:induction false} DropNonSlugSpec(s: string)
    ensures DropNonSlug(s) == s[|s| - |DropNonSlug(s)|..]
    ensures DropNonSlug(s) != [] ==> IsSlugChar(DropNonSlug(s)[0])
    ensures forall i :: 0 <= i < |s| - |DropNonSlug(s)| ==> !IsSlugChar(s[i])
    decreases |s|
  {
    if s != [] && !IsSlugChar(s[0]) {
      DropNonSlugSpec(s[1..]);
    }
  }

  /** `re.ReplaceAllString(s, "-")` with `re = [^a-z0-9]+`: every maximal run
      of non-slug characters becomes a single hyphen. */
  function ReplaceRuns(s: string): (r: string)
    // A run of one or more characters becomes one hyphen, so nothing grows,
    // and only the empty string gives the empty string.
    ensures |r| <= |s|
    ensures r == [] <==> s == []
    decreases |s|
  {
    if s == [] then []
    else if IsSlugChar(s[0]) then [s[0]] + ReplaceRuns(s[1..])
    else "-" + ReplaceRuns(DropNonSlug(s[1..]))
  }

  /** Drops every leading hyphen. */
  function TrimLeft(s: string): (r: string)
    ensures |r| <= |s|
  {
    if s != [] && s[0] == '-' then TrimLeft(s[1..]) else s
  }

  /** TrimLeft removes a prefix made only of hyphens, and the longest one. */
  lemma {:induction false} TrimLeftSpec(s: string)
    ensures TrimLeft(s) == s[|s| - |TrimLeft(s)|..]
    ensures TrimLeft(s) != [] ==> TrimLeft(s)[0] != '-'
    ensures AllHyphens(s[..|s| - |TrimLeft(s)|])
    decreases |s|
  {
    if s != [] && s[0] == '-' {
      TrimLeftSpec(s[1..]);
      var k := |s| - |TrimLeft(s)|;
      assert s[..k] == [s[0]] + s[1..][..k - 1];
      assert s[1..][k - 1..] == s[k..];
    } else {
      assert s[..0] == [];
    }
  }

  /** Drops every trailing hyphen. */
  function TrimRight(s: string): (r: string)
    ensures |r| <= |s|
  {
    if s != [] && s[|s| - 1] == '-' then TrimRight(s[..|s| - 1]) else s
  }

  /** TrimRight removes a suffix made only of hyphens, and the longest one. */
  lemma {:induction false} TrimRightSpec(s: string)
    ensures TrimRight(s) == s[..|TrimRight(s)|]
    ensures TrimRight(s) != [] ==> TrimRight(s)[|TrimRight(s)| - 1] != '-'
    ensures AllHyphens(s[|TrimRight(s)|..])
    decreases |s|
  {
    if s != [] && s[|s| - 1] == '-' {
      var t := s[..|s| - 1];
      TrimRightSpec(t);
      var m := |TrimRight(s)|;
      assert s[m..] == t[m..] + [s[|s| - 1]];
      assert t[..m] == s[..m];
    } else {
      assert s[|s|..] == [];
    }
  }

  /** `strings.Trim(s, "-")`: the result is the piece of `s` left after
      cutting off a prefix and a suffix made only of hyphens, and no hyphen is
      left at either of its ends. */
  function Trim(s: string): (r: string)
    ensures |r| <= |s|
    ensures r != [] ==> r[0] != '-' && r[|r| - 1] != '-'
    // Where the kept piece starts: after the leading hyphens.
    ensures var k := |s| - |TrimLeft(s)|;
      && k + |r| <= |s|
      && r == s[k..k + |r|]
      && AllHyphens(s[..k]) && AllHyphens(s[k + |r|..])
    ensures RemoveHyphens(r) == RemoveHyphens(s)
  {
    TrimPiece(s);
    TrimLeftKeepsNonHyphens(s);
    TrimRightKeepsNonHyphens(TrimLeft(s));
    TrimRight(TrimLeft(s))
  }

  predicate AllHyphens(u: string)
  {
    forall i :: 0 <= i < |u| ==> u[i] == '-'
  }

  /** Trimming both ends keeps one piece of `s` and cuts off only hyphens. */
  lemma TrimPiece(s: string)
    ensures var k := |s| - |TrimLeft(s)|;
      var r := TrimRight(TrimLeft(s));
      && k + |r| <= |s|
      && r == s[k..k + |r|]
      && AllHyphens(s[..k]) && AllHyphens(s[k + |r|..])
      && (r != [] ==> r[0] != '-' && r[|r| - 1] != '-')
  {
    TrimLeftSpec(s);
    TrimRightSpec(TrimLeft(s));
    var l := TrimLeft(s);
    var k := |s| - |l|;
    var r := TrimRight(l);
    assert r != [] ==> r[0] == l[0];
    assert s[k..k + |r|] == l[..|r|];
    assert s[k + |r|..] == l[|r|..];
  }

  /** Slug: lower-case, collapse each non-`[a-z0-9]` run to `-`, trim hyphens.
      The result is a well-formed slug that keeps exactly the `[a-z0-9]`
      characters of the lower-cased input, in order. */
  function Slug(s: string): (r: string)
    ensures IsSlug(r)
    ensures RemoveHyphens(r) == SlugChars(ToLower(s))
  {
    ReplaceRunsTrimWellFormed(ToLower(s));
    ReplaceRunsTrimKeepsSlugChars(ToLower(s));
    Trim(ReplaceRuns(ToLower(s)))
  }

  predicate InSlugAlphabet(s: string)
  {
    forall i :: 0 <= i < |s| ==> IsSlugChar(s[i]) || s[i] == '-'
  }

  predicate NoDoubleHyphen(s: string)
  {
    forall i :: 0 <= i < |s| - 1 ==> !(s[i] == '-' && s[i + 1] == '-')
  }

  /** The characters of `s` that are in `[a-z0-9]`, in order. */
  function SlugChars(s: string): string
  {
    if s == [] then []
    else if IsSlugChar(s[0]) then [s[0]] + SlugChars(s[1..])
    else SlugChars(s[1..])
  }

  /** `s` with every hyphen removed. */
  function RemoveHyphens(s: string): string
  {
    if s == [] then []
    else if s[0] == '-' then RemoveHyphens(s[1..])
    else [s[0]] + RemoveHyphens(s[1..])
  }

  /** The shape of a finished slug. */
  predicate IsSlug(s: string)
  {
    InSlugAlphabet(s) && NoDoubleHyphen(s) && (s != [] ==> s[0] != '-' && s[|s| - 1] != '-')
  }

  lemma {:induction false} ReplaceRunsShape(s: string)
    ensures InSlugAlphabet(ReplaceRuns(s))
    ensures NoDoubleHyphen(ReplaceRuns(s))
    ensures ReplaceRuns(s) != [] && ReplaceRuns(s)[0] == '-' ==> s != [] && !IsSlugChar(s[0])
    decreases |s|
  {
    if s == [] {
    } else if IsSlugChar(s[0]) {
      ReplaceRunsShape(s[1..]);
    } else {
      var rest := DropNonSlug(s[1..]);
      DropNonSlugSpec(s[1..]);
      ReplaceRunsShape(rest);
      var r := ReplaceRuns(rest);
      assert r != [] ==> r[0] != '-';
      assert ReplaceRuns(s) == "-" + r;
    }
  }

  lemma {:induction false} SlugCharsOfConcat(a: string, b: string)
    ensures SlugChars(a + b) == SlugChars(a) + SlugChars(b)
    decreases |a|
  {
    if a == [] {
      assert a + b == b;
    } else {
      assert (a + b)[0] == a[0];
      assert (a + b)[1..] == a[1..] + b;
      SlugCharsOfConcat(a[1..], b);
    }
  }

  lemma {:induction false} RemoveHyphensOfConcat(a: string, b: string)
    ensures RemoveHyphens(a + b) == RemoveHyphens(a) + RemoveHyphens(b)
    decreases |a|
  {
    if a == [] {
      assert a + b == b;
    } else {
      assert (a + b)[0] == a[0];
      assert (a + b)[1..] == a[1..] + b;
      RemoveHyphensOfConcat(a[1..], b);
    }
  }

  lemma {:induction false} SlugCharsOfNonSlugRun(s: string)
    ensures SlugChars(s) == SlugChars(DropNonSlug(s))
    decreases |s|
  {
    if s != [] && !IsSlugChar(s[0]) {
      SlugCharsOfNonSlugRun(s[1..]);
    }
  }

  lemma {:induction false} ReplaceRunsKeepsSlugChars(s: string)
    ensures RemoveHyphens(ReplaceRuns(s)) == SlugChars(s)
    decreases |s|
  {
    if s == [] {
    } else if IsSlugChar(s[0]) {
      ReplaceRunsKeepsSlugChars(s[1..]);
      RemoveHyphensOfConcat([s[0]], ReplaceRuns(s[1..]));
    } else {
      var rest := DropNonSlug(s[1..]);
      ReplaceRunsKeepsSlugChars(rest);
      SlugCharsOfNonSlugRun(s[1..]);
      RemoveHyphensOfConcat("-", ReplaceRuns(rest));
    }
  }

  lemma {:induction false} RemoveHyphensOfHyphens(s: string)
    requires AllHyphens(s)
    ensures RemoveHyphens(s) == []
    decreases |s|
  {
    if s != [] {
      assert AllHyphens(s[1..]) by {
        assert forall i :: 0 <= i < |s| - 1 ==> s[1..][i] == s[i + 1];
      }
      RemoveHyphensOfHyphens(s[1..]);
    }
  }

  lemma TrimLeftKeepsNonHyphens(s: string)
    ensures RemoveHyphens(TrimLeft(s)) == RemoveHyphens(s)
  {
    TrimLeftSpec(s);
    var l := TrimLeft(s);
    var k := |s| - |l|;
    assert s == s[..k] + l;
    RemoveHyphensOfConcat(s[..k], l);
    RemoveHyphensOfHyphens(s[..k]);
  }

  lemma TrimRightKeepsNonHyphens(s: string)
    ensures RemoveHyphens(TrimRight(s)) == RemoveHyphens(s)
  {
    TrimRightSpec(s);
    var r := TrimRight(s);
    assert s == r + s[|r|..];
    RemoveHyphensOfConcat(r, s[|r|..]);
    RemoveHyphensOfHyphens(s[|r|..]);
  }

  /** Replacing runs and trimming any string gives something made of
      `[a-z0-9-]`, with no `--`, that neither starts nor ends with `-`. */
  lemma ReplaceRunsTrimWellFormed(t: string)
    ensures IsSlug(Trim(ReplaceRuns(t)))
  {
    var x := ReplaceRuns(t);
    ReplaceRunsShape(t);
    var r := Trim(x);
    var k := |x| - |TrimLeft(x)|;
    SliceKeepsShape(x, k, k + |r|);
  }

  /** A piece of a string made of `[a-z0-9-]` without `--` is one too. */
  lemma SliceKeepsShape(x: string, i: nat, j: nat)
    requires i <= j <= |x| && InSlugAlphabet(x) && NoDoubleHyphen(x)
    ensures InSlugAlphabet(x[i..j]) && NoDoubleHyphen(x[i..j])
  {
    assert forall m :: 0 <= m < j - i ==> x[i..j][m] == x[i + m];
  }

  /** Removing the hyphens after replacing runs and trimming leaves exactly
      the `[a-z0-9]` characters of the string, in their original order. */
  lemma ReplaceRunsTrimKeepsSlugChars(t: string)
    ensures RemoveHyphens(Trim(ReplaceRuns(t))) == SlugChars(t)
  {
    ReplaceRunsKeepsSlugChars(t);
  }

  lemma {:induction false} ReplaceRunsOfSlug(s: string)
    requires InSlugAlphabet(s) && NoDoubleHyphen(s)
    ensures ReplaceRuns(s) == s
    decreases |s|
  {
    if s != [] {
      ReplaceRunsOfSlug(s[1..]);
      if !IsSlugChar(s[0]) {
        assert DropNonSlug(s[1..]) == s[1..];
      }
    }
  }

  /** A slug is its own slug. */
  lemma SlugIdempotent(s: string)
    ensures Slug(Slug(s)) == Slug(s)
  {
    var t := Slug(s);
    assert ToLower(t) == t;
    ReplaceRunsOfSlug(t);
  }

  lemma {:induction false} ReplaceRunsOfSlugRun(w: string, rest: string)
    requires AllSlugChars(w)
    ensures ReplaceRuns(w + rest) == w + ReplaceRuns(rest)
    decreases |w|
  {
    if w == [] {
      assert w + rest == rest;
    } else {
      var t := w + rest;
      assert t[0] == w[0] && t[1..] == w[1..] + rest;
      assert ReplaceRuns(t) == [w[0]] + ReplaceRuns(w[1..] + rest);
      assert AllSlugChars(w[1..]) by {
        assert forall i :: 0 <= i < |w| - 1 ==> w[1..][i] == w[i + 1];
      }
      ReplaceRunsOfSlugRun(w[1..], rest);
      assert [w[0]] + (w[1..] + ReplaceRuns(rest)) == w + ReplaceRuns(rest);
    }
  }

  lemma {:induction false} DropNonSlugRun(u: string, rest: string)
    requires forall i :: 0 <= i < |u| ==> !IsSlugChar(u[i])
    requires rest == [] || IsSlugChar(rest[0])
    ensures DropNonSlug(u + rest) == rest
    decreases |u|
  {
    if u == [] {
      assert u + rest == rest;
    } else {
      assert (u + rest)[1..] == u[1..] + rest;
      DropNonSlugRun(u[1..], rest);
    }
  }

  lemma ReplaceRunsOfNonSlugRun(u: string, rest: string)
    requires u != [] && forall i :: 0 <= i < |u| ==> !IsSlugChar(u[i])
    requires rest == [] || IsSlugChar(rest[0])
    ensures ReplaceRuns(u + rest) == "-" + ReplaceRuns(rest)
  {
    assert (u + rest)[1..] == u[1..] + rest;
    DropNonSlugRun(u[1..], rest);
  }

  predicate AllSlugChars(w: string)
  {
    forall i :: 0 <= i < |w| ==> IsSlugChar(w[i])
  }

  predicate NoSlugChars(u: string)
  {
    forall i :: 0 <= i < |u| ==> !IsSlugChar(u[i])
  }

  /** `seps[0] + words[0] + seps[1] + ... + words[n-1] + seps[n]`. */
  function Interleave(seps: seq<string>, words: seq<string>): string
    requires |seps| == |words| + 1
  {
    if words == [] then seps[0] else seps[0] + (words[0] + Interleave(seps[1..], words[1..]))
  }

  /** `words` joined by single hyphens. */
  function JoinHyphens(words: seq<string>): string
    requires words != []
  {
    if |words| == 1 then words[0] else words[0] + ("-" + JoinHyphens(words[1..]))
  }

  /** "-" for a non-empty run of other characters at an end of the string,
      nothing for an empty one. */
  function EdgeHyphen(u: string): string
  {
    if u == [] then "" else "-"
  }

  /** Words of slug characters separated by non-empty runs of other
      characters, with a possibly empty run of other characters at each end,
      come out of ReplaceRuns as the words joined by single hyphens, with a
      hyphen at an end exactly when that end's run is non-empty. */
  lemma {:induction false} ReplaceRunsInterleaved(seps: seq<string>, words: seq<string>)
    requires Interleavable(seps, words)
    ensures ReplaceRuns(Interleave(seps, words))
            == EdgeHyphen(seps[0]) + (JoinHyphens(words) + EdgeHyphen(seps[|words|]))
    decreases |words|
  {
    InterleavableParts(seps, words);
    var w := words[0];
    var rest := Interleave(seps[1..], words[1..]);
    var last := EdgeHyphen(seps[|words|]);
    var tail;
    if |words| == 1 {
      ReplaceRunsOfEdge(seps[1]);
      tail := last;
      assert w + tail == JoinHyphens(words) + last;
    } else {
      ReplaceRunsInterleaved(seps[1..], words[1..]);
      var j := JoinHyphens(words[1..]);
      tail := "-" + (j + last);
      assert w + tail == JoinHyphens(words) + last;
    }
    ReplaceRunsOfWord(seps[0], w, rest, tail);
  }

  /** What an interleaving is made of at its front, and what is left after
      its first separator and word. */
  lemma InterleavableParts(seps: seq<string>, words: seq<string>)
    requires Interleavable(seps, words)
    ensures words[0] != [] && AllSlugChars(words[0]) && NoSlugChars(seps[0])
    ensures |words| == 1 ==> NoSlugChars(seps[1])
    ensures |words| > 1 ==> Interleavable(seps[1..], words[1..]) && seps[1] != []
    ensures Interleave(seps, words) == seps[0] + (words[0] + Interleave(seps[1..], words[1..]))
  {
    if |words| > 1 {
      assert forall k :: 0 <= k < |words| - 1 ==> words[1..][k] == words[k + 1];
      assert forall k :: 0 <= k < |seps| - 1 ==> seps[1..][k] == seps[k + 1];
    }
  }

  /** A run of other characters at the end of a string becomes its edge
      hyphen. */
  lemma ReplaceRunsOfEdge(u: string)
    requires NoSlugChars(u)
    ensures ReplaceRuns(u) == EdgeHyphen(u)
  {
    if u != [] {
      ReplaceRunsOfNonSlugRun(u, "");
      assert u + "" == u;
    }
  }

  /** A possibly empty run of other characters followed by a word keeps the
      word and becomes at most one hyphen in front of it. */
  lemma ReplaceRunsOfWord(u: string, w: string, rest: string, tail: string)
    requires NoSlugChars(u) && w != [] && AllSlugChars(w)
    requires ReplaceRuns(rest) == tail
    ensures ReplaceRuns(u + (w + rest)) == EdgeHyphen(u) + (w + tail)
  {
    ReplaceRunsOfSlugRun(w, rest);
    if u == [] {
      assert u + (w + rest) == w + rest;
    } else {
      ReplaceRunsOfNonSlugRun(u, w + rest);
    }
  }

  /** Replacing runs and trimming such a string gives its words joined by
      single hyphens, whether or not the string starts or ends with a run of
      other characters. */
  lemma SlugOfInterleaved(seps: seq<string>, words: seq<string>)
    requires Interleavable(seps, words)
    ensures Trim(ReplaceRuns(Interleave(seps, words))) == JoinHyphens(words)
  {
    ReplaceRunsInterleaved(seps, words);
    JoinHyphensEnds(words);
    TrimFramed(seps[0], JoinHyphens(words), seps[|words|]);
  }

  /** Trimming a piece without edge hyphens framed by edge hyphens gives the
      piece back. */
  lemma TrimFramed(u: string, j: string, v: string)
    requires j != [] && j[0] != '-' && j[|j| - 1] != '-'
    ensures Trim(EdgeHyphen(u) + (j + EdgeHyphen(v))) == j
  {
    var last := EdgeHyphen(v);
    assert TrimLeft(EdgeHyphen(u) + (j + last)) == j + last by {
      if u != [] {
        assert ("-" + (j + last))[1..] == j + last;
      }
      assert (j + last)[0] == j[0];
    }
    assert TrimRight(j + last) == j by {
      if v != [] {
        assert (j + "-")[..|j|] == j;
      } else {
        assert j + last == j;
      }
    }
  }

  lemma {:induction false} JoinHyphensEnds(words: seq<string>)
    requires words != []
    requires forall k :: 0 <= k < |words| ==> words[k] != [] && AllSlugChars(words[k])
    ensures JoinHyphens(words) != []
    ensures IsSlugChar(JoinHyphens(words)[0])
    ensures IsSlugChar(JoinHyphens(words)[|JoinHyphens(words)| - 1])
    decreases |words|
  {
    if |words| > 1 {
      JoinHyphensEnds(words[1..]);
    }
  }

  lemma SlugExampleLower()
    ensures ToLower(" This    is a- 'test?") == " this    is a- 'test?"
  {
  }

  /** Interleave written out for four words. */
  lemma InterleaveFour(s0: string, s1: string, s2: string, s3: string, s4: string,
                       w0: string, w1: string, w2: string, w3: string)
    ensures Interleave([s0, s1, s2, s3, s4], [w0, w1, w2, w3])
            == s0 + (w0 + (s1 + (w1 + (s2 + (w2 + (s3 + (w3 + s4)))))))
  {
    assert [s0, s1, s2, s3, s4][1..] == [s1, s2, s3, s4];
    assert [w0, w1, w2, w3][1..] == [w1, w2, w3];
    assert [s1, s2, s3, s4][1..] == [s2, s3, s4];
    assert [w1, w2, w3][1..] == [w2, w3];
    assert [s2, s3, s4][1..] == [s3, s4];
    assert [w2, w3][1..] == [w3];
    assert [s3, s4][1..] == [s4];
    assert [w3][1..] == [];
    assert Interleave([s4], []) == s4;
    assert Interleave([s3, s4], [w3]) == s3 + (w3 + s4);
    assert Interleave([s2, s3, s4], [w2, w3]) == s2 + (w2 + (s3 + (w3 + s4)));
    assert Interleave([s1, s2, s3, s4], [w1, w2, w3]) == s1 + (w1 + (s2 + (w2 + (s3 + (w3 + s4)))));
  }

  lemma SlugExampleWords()
    ensures " this    is a- 'test?" == Interleave([" ", "    ", " ", "- '", "?"], ["this", "is", "a", "test"])
  {
    InterleaveFour(" ", "    ", " ", "- '", "?", "this", "is", "a", "test");
    assert " this    is a- 'test?" == " " + ("this" + ("    " + ("is" + (" " + ("a" + ("- '" + ("test" + "?")))))));
  }

  lemma SlugExampleJoined()
    ensures JoinHyphens(["this", "is", "a", "test"]) == "this-is-a-test"
  {
    assert JoinHyphens(["a", "test"]) == "a-test";
  }

  /** `words` are non-empty runs of slug characters and `seps`, one more of
      them, runs of other characters, non-empty between two words and
      possibly empty at either end. */
  predicate Interleavable(seps: seq<string>, words: seq<string>)
  {
    && |seps| == |words| + 1 && words != []
    && (forall k :: 0 <= k < |words| ==> words[k] != [] && AllSlugChars(words[k]))
    && (forall k :: 0 <= k < |seps| ==> NoSlugChars(seps[k]))
    && (forall k :: 0 < k < |words| ==> seps[k] != [])
  }

  /** The words and separators of the example below. */
  lemma ExampleInterleavable()
    ensures Interleavable([" ", "    ", " ", "- '", "?"], ["this", "is", "a", "test"])
  {
  }

  /** A string whose lower-cased form interleaves slug words with runs of
      other characters slugs to those words joined by single hyphens. */
  lemma SlugOfLoweredInterleaved(s: string, seps: seq<string>, words: seq<string>)
    requires Interleavable(seps, words)
    requires ToLower(s) == Interleave(seps, words)
    ensures Slug(s) == JoinHyphens(words)
  {
    SlugOfInterleaved(seps, words);
  }

  lemma {:induction false} NoSlugCharsOfEmptySlugChars(u: string)
    requires SlugChars(u) == []
    ensures NoSlugChars(u)
    decreases |u|
  {
    if u != [] {
      NoSlugCharsOfEmptySlugChars(u[1..]);
      assert forall i :: 1 <= i < |u| ==> u[i] == u[1..][i - 1];
    }
  }

  /** Every string with a slug character splits into its maximal runs of
      slug characters and the runs of other characters around them. */
  lemma {:induction false} Decompose(t: string) returns (seps: seq<string>, words: seq<string>)
    requires SlugChars(t) != []
    ensures Interleavable(seps, words) && t == Interleave(seps, words)
    decreases |t|
  {
    var c := t[0];
    var u := t[1..];
    assert t == [c] + u;
    if SlugChars(u) == [] {
      NoSlugCharsOfEmptySlugChars(u);
      seps, words := SingleWord(c, u);
    } else {
      var seps', words' := Decompose(u);
      seps, words := ConsChar(c, seps', words');
    }
  }

  /** A slug character followed by other characters only is one word. */
  lemma SingleWord(c: char, u: string) returns (seps: seq<string>, words: seq<string>)
    requires IsSlugChar(c) && NoSlugChars(u)
    ensures Interleavable(seps, words) && [c] + u == Interleave(seps, words)
  {
    seps, words := ["", u], [[c]];
    assert Interleave(seps, words) == "" + ([c] + Interleave([u], []));
  }

  /** Putting a character in front of an interleaving: a character outside
      `[a-z0-9]` joins the first run of other characters; a slug character
      joins the first word when that run is empty, and starts a new word
      otherwise. */
  lemma ConsChar(c: char, seps': seq<string>, words': seq<string>)
    returns (seps: seq<string>, words: seq<string>)
    requires Interleavable(seps', words')
    ensures Interleavable(seps, words)
    ensures Interleave(seps, words) == [c] + Interleave(seps', words')
  {
    if !IsSlugChar(c) {
      seps, words := ConsOther(c, seps', words');
    } else if seps'[0] == [] {
      seps, words := ConsIntoWord(c, seps', words');
    } else {
      seps, words := ConsNewWord(c, seps', words');
    }
  }

  lemma ConsOther(c: char, seps': seq<string>, words': seq<string>)
    returns (seps: seq<string>, words: seq<string>)
    requires !IsSlugChar(c) && Interleavable(seps', words')
    ensures Interleavable(seps, words)
    ensures Interleave(seps, words) == [c] + Interleave(seps', words')
  {
    InterleavableParts(seps', words');
    var u := seps'[0];
    seps, words := [[c] + u] + seps'[1..], words';
    assert seps[1..] == seps'[1..];
    assert NoSlugChars([c] + u) by {
      assert forall i :: 1 <= i < |u| + 1 ==> ([c] + u)[i] == u[i - 1];
    }
    assert forall k :: 0 < k < |seps| ==> seps[k] == seps'[k];
    InterleavableParts(seps, words);
    var x := words'[0] + Interleave(seps'[1..], words'[1..]);
    assert ([c] + u) + x == [c] + (u + x);
  }

  lemma ConsIntoWord(c: char, seps': seq<string>, words': seq<string>)
    returns (seps: seq<string>, words: seq<string>)
    requires IsSlugChar(c) && Interleavable(seps', words') && seps'[0] == []
    ensures Interleavable(seps, words)
    ensures Interleave(seps, words) == [c] + Interleave(seps', words')
  {
    InterleavableParts(seps', words');
    var w := words'[0];
    seps, words := seps', [[c] + w] + words'[1..];
    assert words[1..] == words'[1..];
    assert AllSlugChars([c] + w) by {
      assert forall i :: 1 <= i < |w| + 1 ==> ([c] + w)[i] == w[i - 1];
    }
    assert forall k :: 0 < k < |words| ==> words[k] == words'[k];
    InterleavableParts(seps, words);
    var y := Interleave(seps'[1..], words'[1..]);
    assert [] + (([c] + w) + y) == [c] + ([] + (w + y));
  }

  lemma ConsNewWord(c: char, seps': seq<string>, words': seq<string>)
    returns (seps: seq<string>, words: seq<string>)
    requires IsSlugChar(c) && Interleavable(seps', words') && seps'[0] != []
    ensures Interleavable(seps, words)
    ensures Interleave(seps, words) == [c] + Interleave(seps', words')
  {
    seps, words := [""] + seps', [[c]] + words';
    assert seps[1..] == seps' && words[1..] == words';
    assert forall k :: 0 < k < |seps| ==> seps[k] == seps'[k - 1];
    assert forall k :: 0 < k < |words| ==> words[k] == words'[k - 1];
    InterleavableParts(seps, words);
    assert "" + ([c] + Interleave(seps', words')) == [c] + Interleave(seps', words');
  }

  /** The slug of any string with a slug character after lower-casing is
      the string's maximal `[a-z0-9]` runs, lower-cased, joined by single
      hyphens. */
  lemma SlugOfAnyString(s: string) returns (seps: seq<string>, words: seq<string>)
    requires SlugChars(ToLower(s)) != []
    ensures Interleavable(seps, words) && ToLower(s) == Interleave(seps, words)
    ensures Slug(s) == JoinHyphens(words)
  {
    seps, words := Decompose(ToLower(s));
    SlugOfLoweredInterleaved(s, seps, words);
  }

  /** A string with no slug character after lower-casing slugs to "". */
  lemma SlugWithoutSlugChars(s: string)
    requires SlugChars(ToLower(s)) == []
    ensures Slug(s) == ""
  {
  }

  /** The example of pkg/utils/utils_test.go. */
  lemma SlugExample()
    ensures Slug(" This    is a- 'test?") == "this-is-a-test"
  {
    var seps := [" ", "    ", " ", "- '", "?"];
    var words := ["this", "is", "a", "test"];
    SlugExampleLower();
    SlugExampleWords();
    SlugExampleJoined();
    ExampleInterleavable();
    SlugOfLoweredInterleaved(" This    is a- 'test?", seps, words);
  }

  // ---------------------------------------------------------------------
  // JSON serialisation (encoding/json is foreign and left abstract)
  // ---------------------------------------------------------------------

  /** What json.Marshal produces on success: never the empty string, since
      every JSON document has at least one character. */
  type JsonText = s: string | s != [] witness "null"

  /** JsonStringify over a marshaller `marshal` (json.Marshal for values of
      type T; None stands for a marshalling error). */
  function JsonStringify<T>(marshal: T -> Option<JsonText>, data: T): (r: string)
    ensures r == [] <==> marshal(data).None?
    ensures marshal(data).Some? ==> r == marshal(data).value
  {
    match marshal(data)
    case None => ""
    case Some(raw) => raw
  }

  // ---------------------------------------------------------------------
  // JsonStack
  // ---------------------------------------------------------------------

  /** A value recovered from a panic: a Go string, or anything else (an
      error, a runtime error, ...) together with its `%v` rendering. */
  datatype PanicValue = StringPanic(text: string) | OtherPanic(formatted: string)
  {
    /** What `fmt.Sprintf("%v", r)` renders. */
    function Formatted(): string
    {
      match this
      case StringPanic(t) => t
      case OtherPanic(f) => f
    }
  }

  /** The struct JsonStack marshals: the panic message and the trace lines. */
  datatype TraceData = TraceData(panicMsg: string, stack: seq<string>)

  function Count(s: string, c: char): nat
  {
    if s == [] then 0 else (if s[0] == c then 1 else 0) + Count(s[1..], c)
  }

  /** `strings.Replace(s, "\t", "", -1)`: exactly the tabs are removed. */
  function RemoveTabs(s: string): (r: string)
    ensures |r| == |s| - Count(s, '\t')
  {
    if s == [] then []
    else if s[0] == '\t' then RemoveTabs(s[1..])
    else [s[0]] + RemoveTabs(s[1..])
  }

  /** No tab survives, nothing is added, and every other character keeps
      its number of occurrences. */
  lemma {:induction false} RemoveTabsSpec(s: string)
    ensures '\t' !in RemoveTabs(s)
    ensures forall c :: c in RemoveTabs(s) ==> c in s
    ensures forall c :: c != '\t' ==> Count(RemoveTabs(s), c) == Count(s, c)
    decreases |s|
  {
    if s != [] {
      RemoveTabsSpec(s[1..]);
    }
  }

  /** Joins non-empty `parts` with `sep` between neighbours. */
  function Join(parts: seq<string>, sep: char): string
    requires parts != []
  {
    if |parts| == 1 then parts[0] else parts[0] + [sep] + Join(parts[1..], sep)
  }

  /** `strings.Split(s, string(sep))`: the pieces between separators; one more
      piece than there are separators, none containing one. */
  function Split(s: string, sep: char): (r: seq<string>)
    ensures r != []
  {
    if s == [] then [""]
    else
      var rest := Split(s[1..], sep);
      if s[0] == sep then [""] + rest else [[s[0]] + rest[0]] + rest[1..]
  }

  /** One more piece than separators; no piece holds a separator or any
      character that `s` does not hold. */
  lemma {:induction false} SplitSpec(s: string, sep: char)
    ensures |Split(s, sep)| == Count(s, sep) + 1
    ensures forall i :: 0 <= i < |Split(s, sep)| ==> sep !in Split(s, sep)[i]
    ensures forall i, c :: 0 <= i < |Split(s, sep)| && c in Split(s, sep)[i] ==> c in s
    decreases |s|
  {
    if s != [] {
      SplitSpec(s[1..], sep);
      var rest := Split(s[1..], sep);
      var r := Split(s, sep);
      assert forall i :: 0 < i < |r| ==> r[i] == rest[i - (if s[0] == sep then 1 else 0)];
      assert forall c :: c in s[1..] ==> c in s;
    }
  }

  /** Splitting and joining again gives back the string. */
  lemma {:induction false} SplitJoin(s: string, sep: char)
    ensures Join(Split(s, sep), sep) == s
    decreases |s|
  {
    if s != [] {
      var rest := Split(s[1..], sep);
      SplitJoin(s[1..], sep);
      assert Join(rest, sep) == s[1..];
      var r := Split(s, sep);
      if s[0] == sep {
        assert r == [""] + rest;
        assert r[1..] == rest;
        assert Join(r, sep) == "" + [sep] + Join(rest, sep);
        assert [s[0]] + s[1..] == s;
      } else if |rest| == 1 {
        assert r == [[s[0]] + rest[0]];
        assert Join(rest, sep) == rest[0];
        assert [s[0]] + s[1..] == s;
      } else {
        assert r == [[s[0]] + rest[0]] + rest[1..];
        assert r[1..] == rest[1..];
        assert Join(r, sep) == [s[0]] + rest[0] + [sep] + Join(rest[1..], sep);
        assert Join(rest, sep) == rest[0] + [sep] + Join(rest[1..], sep);
        assert [s[0]] + s[1..] == s;
      }
    }
  }

  /** The trace data JsonStack builds: a string panic is kept verbatim, any
      other value is reported as "Unprintable"; the trace loses its tabs and
      is split into lines. */
  function StackTrace(panicMsg: PanicValue, rawTrace: string): (d: TraceData)
    ensures d.panicMsg == (if panicMsg.StringPanic? then panicMsg.text else "Unprintable")
    ensures |d.stack| == Count(RemoveTabs(rawTrace), '\n') + 1
    ensures forall i :: 0 <= i < |d.stack| ==> '\t' !in d.stack[i] && '\n' !in d.stack[i]
    ensures Join(d.stack, '\n') == RemoveTabs(rawTrace)
  {
    var msg := if panicMsg.StringPanic? then panicMsg.text else "Unprintable";
    var trace := RemoveTabs(rawTrace);
    RemoveTabsSpec(rawTrace);
    SplitSpec(trace, '\n');
    SplitJoin(trace, '\n');
    TraceData(msg, Split(trace, '\n'))
  }

  /** JsonStack: the JSON of the trace data, or, should marshalling fail, the
      plain text `Panic:<msg>: <trace>`. */
  function JsonStack(marshal: TraceData -> Option<JsonText>, panicMsg: PanicValue, rawTrace: string): (r: string)
    ensures marshal(StackTrace(panicMsg, rawTrace)).Some? ==> r == marshal(StackTrace(panicMsg, rawTrace)).value
    ensures marshal(StackTrace(panicMsg, rawTrace)).None? ==>
      r == "Panic:" + StackTrace(panicMsg, rawTrace).panicMsg + ": " + RemoveTabs(rawTrace)
  {
    var d := StackTrace(panicMsg, rawTrace);
    match marshal(d)
    case None => "Panic:" + d.panicMsg + ": " + RemoveTabs(rawTrace)
    case Some(j) => j
  }

  lemma {:induction false} SplitWithoutSep(a: string, sep: char)
    requires sep !in a
    ensures Split(a, sep) == [a]
    decreases |a|
  {
    if a != [] {
      assert a[0] != sep && sep !in a[1..];
      SplitWithoutSep(a[1..], sep);
      assert [a[0]] + a[1..] == a;
    }
  }

  lemma {:induction false} SplitAtSep(a: string, b: string, sep: char)
    requires sep !in a
    ensures Split(a + ([sep] + b), sep) == [a] + Split(b, sep)
    decreases |a|
  {
    if a == [] {
      assert a + ([sep] + b) == [sep] + b;
      assert ([sep] + b)[1..] == b;
    } else {
      var t := a + ([sep] + b);
      assert t[0] == a[0] && a[0] != sep && sep !in a[1..];
      assert t[1..] == a[1..] + ([sep] + b);
      SplitAtSep(a[1..], b, sep);
      var rest := Split(t[1..], sep);
      assert rest[0] == a[1..] && rest[1..] == Split(b, sep);
      assert [a[0]] + a[1..] == a;
    }
  }

  /** Tabs are removed piece by piece, so the order of what is kept is the
      order of the input. */
  lemma {:induction false} RemoveTabsOfConcat(a: string, b: string)
    ensures RemoveTabs(a + b) == RemoveTabs(a) + RemoveTabs(b)
    decreases |a|
  {
    if a == [] {
      assert a + b == b;
    } else {
      assert (a + b)[0] == a[0];
      assert (a + b)[1..] == a[1..] + b;
      RemoveTabsOfConcat(a[1..], b);
    }
  }

  /** A string without tabs is left as it is. */
  lemma {:induction false} RemoveTabsWithoutTabs(a: string)
    requires '\t' !in a
    ensures RemoveTabs(a) == a
    decreases |a|
  {
    if a != [] {
      RemoveTabsWithoutTabs(a[1..]);
    }
  }

  lemma ConcatAssoc(a: string, b: string, c: string)
    ensures a + b + c == a + (b + c)
  {
  }

  /** Removing tabs from a tab-free line, a newline, a tab and a rest keeps
      the line and the newline and goes on with the rest. */
  lemma RemoveTabsOfIndentedLine(a: string, b: string)
    requires '\t' !in a
    ensures RemoveTabs(a + ("\n\t" + b)) == a + ("\n" + RemoveTabs(b))
  {
    var nt := "\n\t";
    assert RemoveTabs(nt) == "\n";
    RemoveTabsOfConcat(nt, b);
    RemoveTabsOfConcat(a, nt + b);
    RemoveTabsWithoutTabs(a);
  }

  /** Removing the tabs of a trace whose lines after the first are indented
      by one tab leaves the lines separated by bare newlines. */
  lemma RemoveTabsOfIndentedLines(l1: string, l2: string, l3: string, l4: string)
    requires '\t' !in l1 && '\t' !in l2 && '\t' !in l3 && '\t' !in l4
    ensures RemoveTabs(l1 + "\n\t" + l2 + "\n\t" + l3 + "\n\t" + l4)
            == l1 + ("\n" + (l2 + ("\n" + (l3 + ("\n" + l4)))))
  {
    var nt := "\n\t";
    ConcatAssoc(l1 + nt + l2 + nt + l3, nt, l4);
    ConcatAssoc(l1 + nt + l2 + nt, l3, nt + l4);
    ConcatAssoc(l1 + nt + l2, nt, l3 + (nt + l4));
    ConcatAssoc(l1 + nt, l2, nt + (l3 + (nt + l4)));
    ConcatAssoc(l1, nt, l2 + (nt + (l3 + (nt + l4))));
    RemoveTabsWithoutTabs(l4);
    RemoveTabsOfIndentedLine(l3, l4);
    RemoveTabsOfIndentedLine(l2, l3 + (nt + l4));
    RemoveTabsOfIndentedLine(l1, l2 + (nt + (l3 + (nt + l4))));
  }

  /** Four newline-free lines joined by newlines split back into those lines. */
  lemma SplitFourLines(l1: string, l2: string, l3: string, l4: string)
    requires '\n' !in l1 && '\n' !in l2 && '\n' !in l3 && '\n' !in l4
    ensures Split(l1 + ("\n" + (l2 + ("\n" + (l3 + ("\n" + l4))))), '\n') == [l1, l2, l3, l4]
  {
    SplitWithoutSep(l4, '\n');
    SplitAtSep(l3, l4, '\n');
    SplitAtSep(l2, l3 + ("\n" + l4), '\n');
    SplitAtSep(l1, l2 + ("\n" + (l3 + ("\n" + l4))), '\n');
  }

  /** The shape of the trace in pkg/utils/utils_test.go: lines indented by a
      tab come out as the bare lines, one per line of the trace. */
  lemma StackTraceOfIndentedLines(p: PanicValue, l1: string, l2: string, l3: string, l4: string)
    requires '\t' !in l1 && '\t' !in l2 && '\t' !in l3 && '\t' !in l4
    requires '\n' !in l1 && '\n' !in l2 && '\n' !in l3 && '\n' !in l4
    ensures StackTrace(p, l1 + "\n\t" + l2 + "\n\t" + l3 + "\n\t" + l4).stack == [l1, l2, l3, l4]
  {
    RemoveTabsOfIndentedLines(l1, l2, l3, l4);
    SplitFourLines(l1, l2, l3, l4);
  }
}
