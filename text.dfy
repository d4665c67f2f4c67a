/**
 * String primitives the engine is built from: ASCII lower-casing, literal
 * (optionally case-insensitive) substring search and global replacement, and
 * the single-space split/join pair.
 */
module Text {

  predicate IsUpper(c: char) { 'A' <= c <= 'Z' }

  /** ASCII lower-casing of one character. */
  function Lower(c: char): char
  {
    if IsUpper(c) then (c as int + 32) as char else c
  }

  /** `toLowerCase`, restricted to ASCII letters. */
  function LowerStr(s: string): (r: string)
    ensures |r| == |s|
    ensures forall i :: 0 <= i < |s| ==> r[i] == Lower(s[i])
    ensures forall c :: c in r ==> !IsUpper(c)
    ensures (forall c :: c in s ==> !IsUpper(c)) ==> r == s
  {
    seq(|s|, i requires 0 <= i < |s| => Lower(s[i]))
  }

  /** Character comparison, case-insensitive (ASCII) when `ci` holds. */
  predicate CharEq(a: char, b: char, ci: bool)
  {
    if ci then Lower(a) == Lower(b) else a == b
  }

  /** `pat` occurs at the start of `s`. */
  predicate StartsWith(s: string, pat: string, ci: bool)
  {
    |pat| <= |s| && forall j :: 0 <= j < |pat| ==> CharEq(s[j], pat[j], ci)
  }

  /** `pat` occurs somewhere in `s` (the empty pattern occurs everywhere). */
  predicate Contains(s: string, pat: string, ci: bool)
    decreases |s|
  {
    StartsWith(s, pat, ci) || (s != [] && Contains(s[1..], pat, ci))
  }

  /** The scanning definition of `Contains` agrees with "some index starts an occurrence". */
  lemma {:induction false} ContainsAtIndex(s: string, pat: string, ci: bool)
    ensures Contains(s, pat, ci) <==> exists i :: 0 <= i <= |s| && StartsWith(s[i..], pat, ci)
    decreases |s|
  {
    assert s[0..] == s;
    if s != [] {
      ContainsAtIndex(s[1..], pat, ci);
      if Contains(s, pat, ci) && !StartsWith(s, pat, ci) {
        var i :| 0 <= i <= |s| - 1 && StartsWith(s[1..][i..], pat, ci);
        assert s[1..][i..] == s[i + 1..];
      }
      if exists i :: 0 <= i <= |s| && StartsWith(s[i..], pat, ci) {
        var i :| 0 <= i <= |s| && StartsWith(s[i..], pat, ci);
        if i > 0 {
          assert s[1..][i - 1..] == s[i..];
        }
      }
    }
  }

  /**
   * Global literal replacement, scanning left to right: every leftmost
   * non-overlapping occurrence of `pat` is replaced by `rep`. An empty
   * pattern matches before every character and at the end, as a global
   * empty regular expression does.
   */
  function ReplaceAll(s: string, pat: string, rep: string, ci: bool): string
    decreases |s|
  {
    if pat == [] then
      if s == [] then rep else rep + [s[0]] + ReplaceAll(s[1..], pat, rep, ci)
    else if s == [] then []
    else if StartsWith(s, pat, ci) then rep + ReplaceAll(s[|pat|..], pat, rep, ci)
    else [s[0]] + ReplaceAll(s[1..], pat, rep, ci)
  }

  /** Replacement introduces no character that is in neither the input nor the replacement. */
  lemma {:induction false} ReplaceAllChars(s: string, pat: string, rep: string, ci: bool)
    ensures forall c :: c in ReplaceAll(s, pat, rep, ci) ==> c in s || c in rep
    decreases |s|
  {
    if s != [] {
      if pat == [] || !StartsWith(s, pat, ci) {
        ReplaceAllChars(s[1..], pat, rep, ci);
      } else {
        ReplaceAllChars(s[|pat|..], pat, rep, ci);
        assert forall c :: c in s[|pat|..] ==> c in s;
      }
    }
  }

  /** Replacing a single character by a text without it removes that character entirely. */
  lemma {:induction false} ReplaceAllRemovesChar(s: string, c: char, rep: string)
    requires c !in rep
    ensures c !in ReplaceAll(s, [c], rep, false)
    decreases |s|
  {
    if s != [] {
      if StartsWith(s, [c], false) {
        ReplaceAllRemovesChar(s[1..], c, rep);
      } else {
        assert s[0] != c;
        ReplaceAllRemovesChar(s[1..], c, rep);
      }
    }
  }

  /** A character that the (case-sensitive) pattern does not contain survives replacement. */
  lemma {:induction false} ReplaceAllKeepsChar(s: string, pat: string, rep: string, c: char)
    requires pat != [] && c !in pat && c in s
    ensures c in ReplaceAll(s, pat, rep, false)
    decreases |s|
  {
    var i :| 0 <= i < |s| && s[i] == c;
    if StartsWith(s, pat, false) {
      // a matched position holds a pattern character, so `c` lies after the match
      if i >= |pat| {
        assert s[|pat|..][i - |pat|] == c;
        ReplaceAllKeepsChar(s[|pat|..], pat, rep, c);
      }
    } else if i > 0 {
      assert s[1..][i - 1] == c;
      ReplaceAllKeepsChar(s[1..], pat, rep, c);
    }
  }

  /** With no occurrence of a non-empty pattern, replacement is the identity. */
  lemma {:induction false} ReplaceAllAbsent(s: string, pat: string, rep: string, ci: bool)
    requires pat != [] && !Contains(s, pat, ci)
    ensures ReplaceAll(s, pat, rep, ci) == s
    decreases |s|
  {
    if s != [] {
      ReplaceAllAbsent(s[1..], pat, rep, ci);
      assert s == [s[0]] + s[1..];
    }
  }

  /** A text lacking some character of the pattern does not contain the pattern. */
  lemma {:induction false} MissingCharNotContained(s: string, pat: string, k: nat)
    requires k < |pat| && pat[k] !in s
    ensures !Contains(s, pat, false)
    decreases |s|
  {
    if s != [] {
      MissingCharNotContained(s[1..], pat, k);
    }
  }

  /** Lower-casing never yields '*'. */
  lemma LowerStar(c: char)
    ensures Lower(c) == '*' <==> c == '*'
  {
  }

  /** A run of '*' in front of a text hides no occurrence of a pattern free of '*'. */
  lemma {:induction false} StarsInvisible(x: string, t: string, pat: string)
    requires pat != [] && '*' !in pat
    requires forall c :: c in x ==> c == '*'
    ensures Contains(x + t, pat, true) <==> Contains(t, pat, true)
    decreases |x|
  {
    if x != [] {
      LowerStar(pat[0]);
      assert x[0] in x;
      assert (x + t)[0] == '*';
      assert !StartsWith(x + t, pat, true);
      assert (x + t)[1..] == x[1..] + t;
      assert forall c :: c in x[1..] ==> c in x;
      StarsInvisible(x[1..], t, pat);
    } else {
      assert x + t == t;
    }
  }

  /**
   * A star-free prefix of the result of masking with "****" is copied from
   * the input unchanged.
   */
  lemma {:induction false} MaskedPrefix(s: string, pat: string, k: nat)
    requires pat != []
    requires k <= |ReplaceAll(s, pat, "****", true)|
    ensures '*' !in ReplaceAll(s, pat, "****", true)[..k] ==>
              k <= |s| && ReplaceAll(s, pat, "****", true)[..k] == s[..k]
    decreases |s|
  {
    var r := ReplaceAll(s, pat, "****", true);
    if s != [] && k > 0 {
      if StartsWith(s, pat, true) {
        assert r[..k][0] == '*';
      } else {
        var r' := ReplaceAll(s[1..], pat, "****", true);
        assert r == [s[0]] + r';
        assert r[1..] == r';
        assert r[..k] == [s[0]] + r'[..k - 1];
        assert forall c :: c in r'[..k - 1] ==> c in r[..k];
        MaskedPrefix(s[1..], pat, k - 1);
        if '*' !in r[..k] {
          assert s[..k] == [s[0]] + s[1..][..k - 1];
        }
      }
    }
  }

  /**
   * Masking cannot create a match at the head: if the masked text starts
   * with a star-free pattern, so does the input.
   */
  lemma NoMatchAtHead(s: string, pat: string)
    requires pat != [] && '*' !in pat
    ensures StartsWith(ReplaceAll(s, pat, "****", true), pat, true) ==> StartsWith(s, pat, true)
  {
    var r := ReplaceAll(s, pat, "****", true);
    if StartsWith(r, pat, true) {
      forall j | 0 <= j < |pat|
        ensures r[..|pat|][j] != '*'
      {
        LowerStar(pat[j]);
        LowerStar(r[j]);
      }
      MaskedPrefix(s, pat, |pat|);
      assert forall j :: 0 <= j < |pat| ==> r[j] == s[j];
    }
  }

  /**
   * Once every case-insensitive occurrence of a star-free, non-empty
   * pattern has been replaced by "****", the result holds no occurrence of
   * it anywhere, even across the seams of the replacements.
   */
  lemma {:induction false} ReplaceAllClears(s: string, pat: string)
    requires pat != [] && '*' !in pat
    ensures !Contains(ReplaceAll(s, pat, "****", true), pat, true)
    decreases |s|
  {
    if s != [] {
      if StartsWith(s, pat, true) {
        var r' := ReplaceAll(s[|pat|..], pat, "****", true);
        ReplaceAllClears(s[|pat|..], pat);
        StarsInvisible("****", r', pat);
      } else {
        var r' := ReplaceAll(s[1..], pat, "****", true);
        ReplaceAllClears(s[1..], pat);
        NoMatchAtHead(s, pat);
        assert ReplaceAll(s, pat, "****", true)[1..] == r';
      }
    }
  }

  /** JavaScript's `split(' ')`: the maximal space-free runs between single spaces. */
  function Split(s: string): (r: seq<string>)
    ensures |r| >= 1
    decreases |s|
  {
    if s == [] then [[]]
    else
      var rest := Split(s[1..]);
      if s[0] == ' ' then [[]] + rest
      else [[s[0]] + rest[0]] + rest[1..]
  }

  /** JavaScript's `join(' ')`. */
  function Join(fs: seq<string>): string
    decreases |fs|
  {
    if |fs| == 0 then []
    else if |fs| == 1 then fs[0]
    else fs[0] + " " + Join(fs[1..])
  }

  /** One step of `Split`, stated for a text given as head and tail. */
  lemma SplitCons(c: char, t: string)
    ensures Split([c] + t) ==
      if c == ' ' then [[]] + Split(t) else [[c] + Split(t)[0]] + Split(t)[1..]
  {
    assert ([c] + t)[1..] == t;
  }

  /** A split has exactly one field more than the text has spaces. */
  lemma {:induction false} SplitCount(s: string)
    ensures |Split(s)| == multiset(s)[' '] + 1
    decreases |s|
  {
    if s != [] {
      SplitCount(s[1..]);
      SplitCons(s[0], s[1..]);
      assert s == [s[0]] + s[1..];
    }
  }

  /** No field of a split contains a space. */
  lemma {:induction false} SplitFieldsSpaceFree(s: string)
    ensures forall i :: 0 <= i < |Split(s)| ==> ' ' !in Split(s)[i]
    decreases |s|
  {
    if s != [] {
      SplitFieldsSpaceFree(s[1..]);
      SplitCons(s[0], s[1..]);
      assert s == [s[0]] + s[1..];
      var rest := Split(s[1..]);
      if s[0] != ' ' {
        assert ' ' !in rest[0];
        forall i | 0 <= i < |Split(s)|
          ensures ' ' !in Split(s)[i]
        {
          if i > 0 {
            assert Split(s)[i] == rest[i];
          }
        }
      }
    }
  }

  /** Joining onto a non-empty list of fields. */
  lemma JoinCons(a: string, fs: seq<string>)
    requires |fs| >= 1
    ensures Join([a] + fs) == a + " " + Join(fs)
  {
    assert ([a] + fs)[1..] == fs;
  }

  /** Joining the fields of a split gives back the text. */
  lemma {:induction false} JoinSplit(s: string)
    ensures Join(Split(s)) == s
    decreases |s|
  {
    if s != [] {
      var rest := Split(s[1..]);
      JoinSplit(s[1..]);
      SplitCons(s[0], s[1..]);
      assert s == [s[0]] + s[1..];
      if s[0] == ' ' {
        JoinCons([], rest);
      } else if |rest| == 1 {
        assert Split(s) == [[s[0]] + rest[0]];
      } else {
        assert rest == [rest[0]] + rest[1..];
        JoinCons(rest[0], rest[1..]);
        JoinCons([s[0]] + rest[0], rest[1..]);
      }
    }
  }

  /** Splitting a text that starts with a space-free field. */
  lemma {:induction false} SplitAfterField(a: string, t: string)
    requires ' ' !in a
    ensures Split(a + t) == [a + Split(t)[0]] + Split(t)[1..]
    decreases |a|
  {
    if a == [] {
      assert a + t == t;
      assert a + Split(t)[0] == Split(t)[0];
      assert Split(t) == [Split(t)[0]] + Split(t)[1..];
    } else {
      assert a[0] in a;
      assert a + t == [a[0]] + (a[1..] + t);
      assert forall c :: c in a[1..] ==> c in a;
      var u := Split(a[1..] + t);
      SplitAfterField(a[1..], t);
      SplitCons(a[0], a[1..] + t);
      assert Split(a + t) == [[a[0]] + u[0]] + u[1..];
      assert u[0] == a[1..] + Split(t)[0];
      assert u[1..] == Split(t)[1..];
      assert [a[0]] + (a[1..] + Split(t)[0]) == a + Split(t)[0];
    }
  }

  /** A text without spaces splits into itself alone. */
  lemma SplitSpaceFree(a: string)
    requires ' ' !in a
    ensures Split(a) == [a]
  {
    SplitAfterField(a, []);
    assert a + [] == a;
  }

  /** Splitting the join of space-free fields gives back the fields. */
  lemma {:induction false} SplitJoin(fs: seq<string>)
    requires |fs| >= 1
    requires forall i :: 0 <= i < |fs| ==> ' ' !in fs[i]
    ensures Split(Join(fs)) == fs
    decreases |fs|
  {
    if |fs| == 1 {
      SplitSpaceFree(fs[0]);
    } else {
      var tail := Join(fs[1..]);
      SplitJoin(fs[1..]);
      JoinCons(fs[0], fs[1..]);
      assert fs == [fs[0]] + fs[1..];
      SplitAfterField(fs[0], " " + tail);
      assert Join(fs) == fs[0] + (" " + tail);
      assert " " + tail == [' '] + tail;
      SplitCons(' ', tail);
      assert Split(" " + tail) == [[]] + fs[1..];
      assert Split(Join(fs)) == [fs[0] + []] + fs[1..];
      assert fs[0] + [] == fs[0];
    }
  }
}
