/** The string helpers of the study tool: slugs for collection ids, HTML
    escaping for user-authored text, and the normal form used to compare
    free-text quiz answers. Each is a chain of `toLowerCase`, `trim` and
    global regular-expression or `replaceAll` replacements, modelled here as
    functions over `string` with the chain's stages as separate functions. */
module TextUtils {

  // ---------------------------------------------------------------------
  // Characters
  // ---------------------------------------------------------------------

  /** The characters ECMAScript counts as white space or line terminators:
      the class `\s` of a regular expression and the set `trim` removes. */
  predicate IsSpace(c: char) {
    c == ' ' || c == '\t' || c == '\n' || c == '\r' || c == '\U{000B}' || c == '\U{000C}'
    || c == '\U{00A0}' || c == '\U{1680}' || ('\U{2000}' <= c <= '\U{200A}')
    || c == '\U{2028}' || c == '\U{2029}' || c == '\U{202F}' || c == '\U{205F}'
    || c == '\U{3000}' || c == '\U{FEFF}'
  }

  predicate IsUpper(c: char) { 'A' <= c <= 'Z' }

  predicate IsHyphen(c: char) { c == '-' }

  /** The characters a slug may keep: `[a-z0-9-]`. */
  predicate IsSlugChar(c: char) { 'a' <= c <= 'z' || '0' <= c <= '9' || c == '-' }

  function LowerChar(c: char): (r: char)
    ensures !IsUpper(r)
    ensures IsUpper(c) ==> r as int == c as int + 32
    ensures IsSpace(r) == IsSpace(c)
    ensures !IsUpper(c) ==> r == c
  {
    if IsUpper(c) then (c as int + 32) as char else c
  }

  /** `toLowerCase`, restricted to the ASCII letters. */
  function Lower(s: string): (r: string)
    ensures |r| == |s|
    ensures forall i :: 0 <= i < |s| ==> r[i] == LowerChar(s[i])
  {
    seq(|s|, i requires 0 <= i < |s| => LowerChar(s[i]))
  }

  lemma LowerFixesLower(s: string)
    requires forall i :: 0 <= i < |s| ==> !IsUpper(s[i])
    ensures Lower(s) == s
  {
  }

  // ---------------------------------------------------------------------
  // trim
  // ---------------------------------------------------------------------

  function TrimStart(s: string): (r: string)
    ensures r == [] || !IsSpace(r[0])
    decreases |s|
  {
    if s != [] && IsSpace(s[0]) then TrimStart(s[1..]) else s
  }

  function TrimEnd(s: string): (r: string)
    ensures r == [] || !IsSpace(r[|r| - 1])
    ensures |r| <= |s| && (r != [] ==> r[0] == s[0])
    decreases |s|
  {
    if s != [] && IsSpace(s[|s| - 1]) then TrimEnd(s[..|s| - 1]) else s
  }

  /** `trim`: drops the white space at both ends. */
  function Trim(s: string): (r: string)
    ensures r == [] || (!IsSpace(r[0]) && !IsSpace(r[|r| - 1]))
  {
    TrimEnd(TrimStart(s))
  }

  /** Every character of `s` is white space. */
  ghost predicate AllSpace(s: string) {
    forall k :: 0 <= k < |s| ==> IsSpace(s[k])
  }

  /** `TrimStart` drops a prefix made only of white space. */
  lemma {:induction false} TrimStartIsSuffix(s: string)
    ensures |TrimStart(s)| <= |s| && TrimStart(s) == s[|s| - |TrimStart(s)|..]
    ensures AllSpace(s[..|s| - |TrimStart(s)|])
    decreases |s|
  {
    if s != [] && IsSpace(s[0]) {
      TrimStartIsSuffix(s[1..]);
      var n := |s| - |TrimStart(s)|;
      forall k | 0 <= k < n ensures IsSpace(s[..n][k]) {
        if k > 0 {
          assert s[..n][k] == s[1..][..n - 1][k - 1];
        }
      }
    }
  }

  /** `TrimEnd` drops a suffix made only of white space. */
  lemma {:induction false} TrimEndIsPrefix(s: string)
    ensures |TrimEnd(s)| <= |s| && TrimEnd(s) == s[..|TrimEnd(s)|]
    ensures AllSpace(s[|TrimEnd(s)|..])
    decreases |s|
  {
    if s != [] && IsSpace(s[|s| - 1]) {
      var init := s[..|s| - 1];
      TrimEndIsPrefix(init);
      var n := |TrimEnd(s)|;
      forall k | 0 <= k < |s| - n ensures IsSpace(s[n..][k]) {
        if n + k < |s| - 1 {
          assert s[n..][k] == init[n..][k];
        }
      }
    }
  }

  /** `trim` returns a slice of its input, and everything outside the slice
      is white space: it removes the white space at both ends and nothing
      else. */
  lemma TrimIsSlice(s: string)
    ensures exists i, j :: 0 <= i <= j <= |s| && Trim(s) == s[i..j] && AllSpace(s[..i]) && AllSpace(s[j..])
  {
    var t := TrimStart(s);
    TrimStartIsSuffix(s);
    TrimEndIsPrefix(t);
    var r := TrimEnd(t);
    var i := |s| - |t|;
    var j := i + |r|;
    assert t == s[i..] && r == t[..|r|];
    assert r == s[i..j];
    assert t[|r|..] == s[j..];
    assert Trim(s) == r;
  }

  /** `trim` only removes characters. */
  lemma TrimKeepsChars(s: string)
    ensures forall i :: 0 <= i < |Trim(s)| ==> Trim(s)[i] in s
  {
    var t := TrimStart(s);
    var r := TrimEnd(t);
    TrimStartIsSuffix(s);
    TrimEndIsPrefix(t);
    forall i | 0 <= i < |r| ensures r[i] in s {
      assert r[i] == t[i] == s[|s| - |t| + i];
    }
  }

  lemma TrimFixesTrimmed(s: string)
    requires s == [] || (!IsSpace(s[0]) && !IsSpace(s[|s| - 1]))
    ensures Trim(s) == s
  {
  }

  // ---------------------------------------------------------------------
  // Global replacement of runs: `s.replace(/x+/g, rep)`
  // ---------------------------------------------------------------------

  /** Replaces every maximal run of characters satisfying `inRun` with the
      single character `rep`; `inside` says that the character before `s`
      was already part of a run that has been replaced. */
  function ReplaceRunsFrom(s: string, inRun: char -> bool, rep: char, inside: bool): (r: string)
    decreases |s|
  {
    if s == [] then []
    else if inRun(s[0]) then
      (if inside then [] else [rep]) + ReplaceRunsFrom(s[1..], inRun, rep, true)
    else
      [s[0]] + ReplaceRunsFrom(s[1..], inRun, rep, false)
  }

  function ReplaceRuns(s: string, inRun: char -> bool, rep: char): (r: string)
  {
    ReplaceRunsFrom(s, inRun, rep, false)
  }

  /** No two neighbouring characters both satisfy `p`. */
  ghost predicate NoAdjacent(s: string, p: char -> bool) {
    forall i :: 0 <= i < |s| - 1 ==> !(p(s[i]) && p(s[i + 1]))
  }

  /** Every character of a replaced string is either the replacement or a
      character of the input outside every run. */
  lemma {:induction false} ReplaceRunsChars(s: string, inRun: char -> bool, rep: char, inside: bool)
    ensures forall c :: c in ReplaceRunsFrom(s, inRun, rep, inside) ==> c == rep || (c in s && !inRun(c))
    decreases |s|
  {
    if s != [] {
      ReplaceRunsChars(s[1..], inRun, rep, inRun(s[0]));
      assert forall c :: c in s[1..] ==> c in s;
    }
  }

  /** When the replacement is itself a run character, the output never holds
      two run characters side by side, and after a replaced run it does not
      start with one. */
  lemma {:induction false} ReplaceRunsNoAdjacent(s: string, inRun: char -> bool, rep: char, inside: bool)
    requires inRun(rep)
    ensures NoAdjacent(ReplaceRunsFrom(s, inRun, rep, inside), inRun)
    ensures inside ==> ReplaceRunsFrom(s, inRun, rep, inside) == [] || !inRun(ReplaceRunsFrom(s, inRun, rep, inside)[0])
    decreases |s|
  {
    if s != [] {
      var tail := ReplaceRunsFrom(s[1..], inRun, rep, inRun(s[0]));
      ReplaceRunsNoAdjacent(s[1..], inRun, rep, inRun(s[0]));
      var r := ReplaceRunsFrom(s, inRun, rep, inside);
      if inRun(s[0]) {
        assert r == (if inside then [] else [rep]) + tail;
      } else {
        assert r == [s[0]] + tail;
      }
    }
  }

  /** Every run character of the output is the replacement itself. */
  lemma {:induction false} ReplaceRunsRunCharsAreRep(s: string, inRun: char -> bool, rep: char, inside: bool)
    ensures var r := ReplaceRunsFrom(s, inRun, rep, inside);
      forall i :: 0 <= i < |r| && inRun(r[i]) ==> r[i] == rep
  {
    ReplaceRunsChars(s, inRun, rep, inside);
    var r := ReplaceRunsFrom(s, inRun, rep, inside);
    forall i | 0 <= i < |r| && inRun(r[i]) ensures r[i] == rep {
      assert r[i] in r;
    }
  }

  /** A character outside every run at the end of the input stays the last
      character of the output. */
  lemma {:induction false} ReplaceRunsKeepsLast(s: string, inRun: char -> bool, rep: char, inside: bool)
    requires s != [] && !inRun(s[|s| - 1])
    ensures var r := ReplaceRunsFrom(s, inRun, rep, inside); r != [] && r[|r| - 1] == s[|s| - 1]
    decreases |s|
  {
    if |s| > 1 {
      ReplaceRunsKeepsLast(s[1..], inRun, rep, inRun(s[0]));
    }
  }

  /** A string with no two neighbouring run characters, whose run characters
      are all `rep` already, is left as it is. */
  lemma {:induction false} ReplaceRunsFixes(s: string, inRun: char -> bool, rep: char, inside: bool)
    requires NoAdjacent(s, inRun)
    requires forall i :: 0 <= i < |s| && inRun(s[i]) ==> s[i] == rep
    requires inside ==> s == [] || !inRun(s[0])
    ensures ReplaceRunsFrom(s, inRun, rep, inside) == s
    decreases |s|
  {
    if s != [] {
      assert NoAdjacent(s[1..], inRun) by {
        forall i | 0 <= i < |s[1..]| - 1 ensures !(inRun(s[1..][i]) && inRun(s[1..][i + 1])) {
          assert s[1..][i] == s[i + 1] && s[1..][i + 1] == s[i + 2];
        }
      }
      ReplaceRunsFixes(s[1..], inRun, rep, inRun(s[0]));
      assert s == [s[0]] + s[1..];
    }
  }

  /** Replacing runs in a concatenation replaces them in each part, the
      second part starting inside a run exactly when the first ends in one. */
  lemma {:induction false} ReplaceRunsAppend(a: string, b: string, inRun: char -> bool, rep: char, inside: bool)
    ensures ReplaceRunsFrom(a + b, inRun, rep, inside)
      == ReplaceRunsFrom(a, inRun, rep, inside)
         + ReplaceRunsFrom(b, inRun, rep, if a == [] then inside else inRun(a[|a| - 1]))
    decreases |a|
  {
    if a == [] {
      assert a + b == b;
    } else {
      assert (a + b)[0] == a[0] && (a + b)[1..] == a[1..] + b;
      ReplaceRunsAppend(a[1..], b, inRun, rep, inRun(a[0]));
      var head := if inRun(a[0]) then (if inside then [] else [rep]) else [a[0]];
      calc {
        ReplaceRunsFrom(a + b, inRun, rep, inside);
        head + ReplaceRunsFrom(a[1..] + b, inRun, rep, inRun(a[0]));
        head + (ReplaceRunsFrom(a[1..], inRun, rep, inRun(a[0]))
                + ReplaceRunsFrom(b, inRun, rep, inRun(a[|a| - 1])));
        (head + ReplaceRunsFrom(a[1..], inRun, rep, inRun(a[0])))
          + ReplaceRunsFrom(b, inRun, rep, inRun(a[|a| - 1]));
      }
    }
  }

  /** A character outside the run class splits the replacement in two: runs
      on either side of it are replaced independently and it stays between
      them. */
  lemma ReplaceRunsSplit(a: string, c: char, b: string, inRun: char -> bool, rep: char, inside: bool)
    requires !inRun(c)
    ensures ReplaceRunsFrom(a + [c] + b, inRun, rep, inside)
      == ReplaceRunsFrom(a, inRun, rep, inside) + [c] + ReplaceRunsFrom(b, inRun, rep, false)
  {
    ReplaceRunsAppend(a + [c], b, inRun, rep, inside);
    ReplaceRunsAppend(a, [c], inRun, rep, inside);
    assert (a + [c])[|a + [c]| - 1] == c;
  }

  /** A whole run becomes exactly one `rep`, or nothing when it continues a
      run that was already replaced. */
  lemma {:induction false} ReplaceRunsOneRun(r: string, inRun: char -> bool, rep: char, inside: bool)
    requires forall i :: 0 <= i < |r| ==> inRun(r[i])
    ensures ReplaceRunsFrom(r, inRun, rep, inside) == if r == [] || inside then [] else [rep]
    decreases |r|
  {
    if r != [] {
      ReplaceRunsOneRun(r[1..], inRun, rep, true);
    }
  }

  /** A non-empty run between two stretches free of run characters becomes a
      single `rep` between them, untouched. */
  lemma ReplaceRunsBetween(a: string, run: string, b: string, inRun: char -> bool, rep: char)
    requires forall i :: 0 <= i < |a| ==> !inRun(a[i])
    requires run != [] && forall i :: 0 <= i < |run| ==> inRun(run[i])
    requires forall i :: 0 <= i < |b| ==> !inRun(b[i])
    ensures ReplaceRuns(a + run + b, inRun, rep) == a + [rep] + b
  {
    ReplaceRunsAppend(a + run, b, inRun, rep, false);
    ReplaceRunsAppend(a, run, inRun, rep, false);
    assert (a + run)[|a + run| - 1] == run[|run| - 1];
    ReplaceRunsOneRun(run, inRun, rep, if a == [] then false else inRun(a[|a| - 1]));
    ReplaceRunsFixes(a, inRun, rep, false);
    ReplaceRunsFixes(b, inRun, rep, true);
  }

  // ---------------------------------------------------------------------
  // slugify
  // ---------------------------------------------------------------------

  /** The characters of `s` that satisfy `q`, in order: the regular
      expression replacement `replace(/[^...]/g, "")`. */
  function Keep(s: string, q: char -> bool): (r: string)
    ensures |r| <= |s|
    ensures forall i :: 0 <= i < |r| ==> q(r[i])
    ensures (forall i :: 0 <= i < |s| ==> q(s[i])) ==> r == s
  {
    if s == [] then []
    else (if q(s[0]) then [s[0]] else []) + Keep(s[1..], q)
  }

  /** One character is kept exactly when it satisfies `q`. */
  lemma KeepOne(c: char, q: char -> bool)
    ensures Keep([c], q) == if q(c) then [c] else []
  {
    assert [c][1..] == [];
  }

  /** Filtering a concatenation filters each part: nothing that satisfies
      `q` is lost, and the order is kept. */
  lemma {:induction false} KeepAppend(a: string, b: string, q: char -> bool)
    ensures Keep(a + b, q) == Keep(a, q) + Keep(b, q)
  {
    if a == [] {
      assert a + b == b;
    } else {
      var head := if q(a[0]) then [a[0]] else [];
      assert (a + b)[0] == a[0] && (a + b)[1..] == a[1..] + b;
      calc {
        Keep(a + b, q);
        head + Keep(a[1..] + b, q);
        { KeepAppend(a[1..], b, q); }
        head + (Keep(a[1..], q) + Keep(b, q));
        Keep(a, q) + Keep(b, q);
      }
    }
  }

  lemma {:induction false} KeepNone(s: string, q: char -> bool)
    requires forall i :: 0 <= i < |s| ==> !q(s[i])
    ensures Keep(s, q) == []
  {
    if s != [] {
      KeepNone(s[1..], q);
    }
  }

  /** Filtering by `p` and then by a stricter `q` is filtering by `q`. */
  lemma {:induction false} KeepKeep(s: string, p: char -> bool, q: char -> bool)
    requires forall c :: q(c) ==> p(c)
    ensures Keep(Keep(s, p), q) == Keep(s, q)
  {
    if s != [] {
      var head := if p(s[0]) then [s[0]] else [];
      KeepAppend(head, Keep(s[1..], p), q);
      KeepKeep(s[1..], p, q);
      if p(s[0]) {
        KeepOne(s[0], q);
      }
    }
  }

  /** Replacing runs of characters `q` rejects by another character `q`
      rejects leaves the characters `q` accepts as they were. */
  lemma {:induction false} KeepReplaceRuns(s: string, inRun: char -> bool, rep: char, inside: bool, q: char -> bool)
    requires forall c :: inRun(c) ==> !q(c)
    requires !q(rep)
    ensures Keep(ReplaceRunsFrom(s, inRun, rep, inside), q) == Keep(s, q)
    decreases |s|
  {
    if s != [] {
      var head := if inRun(s[0]) then (if inside then [] else [rep]) else [s[0]];
      KeepAppend(head, ReplaceRunsFrom(s[1..], inRun, rep, inRun(s[0])), q);
      KeepReplaceRuns(s[1..], inRun, rep, inRun(s[0]), q);
      if inRun(s[0]) {
        if !inside {
          KeepOne(rep, q);
        }
      } else {
        KeepOne(s[0], q);
      }
    }
  }

  lemma {:induction false} KeepTrimStart(s: string, q: char -> bool)
    requires forall c :: IsSpace(c) ==> !q(c)
    ensures Keep(TrimStart(s), q) == Keep(s, q)
    decreases |s|
  {
    if s != [] && IsSpace(s[0]) {
      KeepTrimStart(s[1..], q);
      assert !q(s[0]);
    }
  }

  lemma {:induction false} KeepTrimEnd(s: string, q: char -> bool)
    requires forall c :: IsSpace(c) ==> !q(c)
    ensures Keep(TrimEnd(s), q) == Keep(s, q)
    decreases |s|
  {
    if s != [] && IsSpace(s[|s| - 1]) {
      var init, last := s[..|s| - 1], s[|s| - 1];
      KeepTrimEnd(init, q);
      assert s == init + [last];
      KeepAppend(init, [last], q);
      KeepOne(last, q);
    }
  }

  /** `trim` removes nothing that a filter rejecting white space keeps. */
  lemma KeepTrim(s: string, q: char -> bool)
    requires forall c :: IsSpace(c) ==> !q(c)
    ensures Keep(Trim(s), q) == Keep(s, q)
  {
    KeepTrimStart(s, q);
    KeepTrimEnd(TrimStart(s), q);
  }

  /** `slugify`: lower-case, trim, white-space runs to `-`, drop everything
      outside `[a-z0-9-]`, hyphen runs to one `-`. */
  function Slugify(title: string): (r: string)
  {
    ReplaceRuns(Keep(ReplaceRuns(Trim(Lower(title)), IsSpace, '-'), IsSlugChar), IsHyphen, '-')
  }

  /** The shape every slug has: only `[a-z0-9-]`, never `--`. */
  ghost predicate IsSlug(t: string) {
    (forall i :: 0 <= i < |t| ==> IsSlugChar(t[i])) && NoAdjacent(t, IsHyphen)
  }

  lemma SlugifyIsSlug(title: string)
    ensures IsSlug(Slugify(title))
  {
    var kept := Keep(ReplaceRuns(Trim(Lower(title)), IsSpace, '-'), IsSlugChar);
    var r := Slugify(title);
    ReplaceRunsChars(kept, IsHyphen, '-', false);
    ReplaceRunsNoAdjacent(kept, IsHyphen, '-', false);
    forall i | 0 <= i < |r| ensures IsSlugChar(r[i]) {
      assert r[i] in r;
    }
  }

  /** Every stage of `slugify` leaves a slug unchanged. */
  lemma SlugifyFixesSlugs(t: string)
    requires IsSlug(t)
    ensures Slugify(t) == t
  {
    forall i | 0 <= i < |t| ensures !IsUpper(t[i]) && !IsSpace(t[i]) {
      assert IsSlugChar(t[i]);
    }
    LowerFixesLower(t);
    TrimFixesTrimmed(t);
    assert Trim(Lower(t)) == t;
    assert NoAdjacent(t, IsSpace);
    ReplaceRunsFixes(t, IsSpace, '-', false);
    assert ReplaceRuns(t, IsSpace, '-') == t;
    assert Keep(t, IsSlugChar) == t;
    ReplaceRunsFixes(t, IsHyphen, '-', false);
  }

  /** The letters and digits a slug keeps. */
  predicate IsAlnum(c: char) { 'a' <= c <= 'z' || '0' <= c <= '9' }

  /** `slugify` keeps every letter and digit of the lower-cased title, in
      order, and no other letter or digit: only separators change. */
  lemma SlugifyKeepsContent(title: string)
    ensures Keep(Slugify(title), IsAlnum) == Keep(Lower(title), IsAlnum)
  {
    var t := Trim(Lower(title));
    var spaced := ReplaceRuns(t, IsSpace, '-');
    var kept := Keep(spaced, IsSlugChar);
    KeepReplaceRuns(kept, IsHyphen, '-', false, IsAlnum);
    KeepKeep(spaced, IsSlugChar, IsAlnum);
    KeepReplaceRuns(t, IsSpace, '-', false, IsAlnum);
    KeepTrim(Lower(title), IsAlnum);
  }

  /** Two words with no white space and no capitals around a white-space run
      are left alone by lower-casing and trimming. */
  lemma WordsAroundRunTrimmed(w1: string, sp: string, w2: string)
    requires w1 != [] && forall i :: 0 <= i < |w1| ==> !IsSpace(w1[i]) && !IsUpper(w1[i])
    requires forall i :: 0 <= i < |sp| ==> IsSpace(sp[i])
    requires w2 != [] && forall i :: 0 <= i < |w2| ==> !IsSpace(w2[i]) && !IsUpper(w2[i])
    ensures Trim(Lower(w1 + sp + w2)) == w1 + sp + w2
  {
    var t := w1 + sp + w2;
    forall i | 0 <= i < |t| ensures !IsUpper(t[i]) {
      if i < |w1| { assert t[i] == w1[i]; }
      else if i < |w1| + |sp| { assert t[i] == sp[i - |w1|]; }
      else { assert t[i] == w2[i - |w1| - |sp|]; }
    }
    LowerFixesLower(t);
    assert t[0] == w1[0] && t[|t| - 1] == w2[|w2| - 1];
    TrimFixesTrimmed(t);
  }

  /** Two alphanumeric words joined by one hyphen make a slug. */
  lemma HyphenJoinIsSlug(w1: string, w2: string)
    requires w1 != [] && forall i :: 0 <= i < |w1| ==> IsAlnum(w1[i])
    requires w2 != [] && forall i :: 0 <= i < |w2| ==> IsAlnum(w2[i])
    ensures IsSlug(w1 + "-" + w2)
  {
    var u := w1 + "-" + w2;
    forall i | 0 <= i < |u| ensures IsSlugChar(u[i]) && (IsHyphen(u[i]) ==> i == |w1|) {
      if i < |w1| { assert u[i] == w1[i]; }
      else if i > |w1| { assert u[i] == w2[i - |w1| - 1]; }
    }
  }

  /** Two words of lower-case letters and digits separated by any white-space
      run are joined by exactly one hyphen: `slugify("Hello World")` keeps the
      word break as `hello-world`. */
  lemma SlugifyJoinsWords(w1: string, sp: string, w2: string)
    requires w1 != [] && forall i :: 0 <= i < |w1| ==> IsAlnum(w1[i])
    requires sp != [] && forall i :: 0 <= i < |sp| ==> IsSpace(sp[i])
    requires w2 != [] && forall i :: 0 <= i < |w2| ==> IsAlnum(w2[i])
    ensures Slugify(w1 + sp + w2) == w1 + "-" + w2
  {
    WordsAroundRunTrimmed(w1, sp, w2);
    ReplaceRunsBetween(w1, sp, w2, IsSpace, '-');
    var u := w1 + "-" + w2;
    assert ReplaceRuns(Trim(Lower(w1 + sp + w2)), IsSpace, '-') == u;
    HyphenJoinIsSlug(w1, w2);
    assert Keep(u, IsSlugChar) == u;
    ReplaceRunsFixes(u, IsHyphen, '-', false);
  }

  lemma SlugifyIdempotent(title: string)
    ensures Slugify(Slugify(title)) == Slugify(title)
  {
    SlugifyIsSlug(title);
    SlugifyFixesSlugs(Slugify(title));
  }

  // ---------------------------------------------------------------------
  // escapeHtml
  // ---------------------------------------------------------------------

  /** `replaceAll(c, entity)` for a one-character pattern. */
  function ReplaceChar(s: string, c: char, entity: string): (r: string)
    ensures c !in s ==> r == s
  {
    if s == [] then []
    else (if s[0] == c then entity else [s[0]]) + ReplaceChar(s[1..], c, entity)
  }

  lemma {:induction false} ReplaceCharAppend(a: string, b: string, c: char, entity: string)
    ensures ReplaceChar(a + b, c, entity) == ReplaceChar(a, c, entity) + ReplaceChar(b, c, entity)
  {
    if a != [] {
      var head := if a[0] == c then entity else [a[0]];
      assert a + b != [] && (a + b)[0] == a[0] && (a + b)[1..] == a[1..] + b;
      assert ReplaceChar(a, c, entity) == head + ReplaceChar(a[1..], c, entity);
      calc {
        ReplaceChar(a + b, c, entity);
        head + ReplaceChar(a[1..] + b, c, entity);
        { ReplaceCharAppend(a[1..], b, c, entity); }
        head + (ReplaceChar(a[1..], c, entity) + ReplaceChar(b, c, entity));
        ReplaceChar(a, c, entity) + ReplaceChar(b, c, entity);
      }
    } else {
      assert a + b == b;
    }
  }

  /** `escapeHtml`: the five `replaceAll` passes in the source's order. */
  function EscapeHtml(s: string): (r: string)
  {
    ReplaceChar(ReplaceChar(ReplaceChar(ReplaceChar(ReplaceChar(
      s, '&', "&amp;"), '<', "&lt;"), '>', "&gt;"), '"', "&quot;"), '\'', "&#039;")
  }

  predicate IsSpecial(c: char) { c == '&' || c == '<' || c == '>' || c == '"' || c == '\'' }

  /** The entity each special character becomes. */
  function EscapeChar(c: char): (r: string)
    ensures |r| >= 1 && (r[0] == '&' <==> IsSpecial(c))
    ensures forall k :: 0 < k < |r| ==> r[k] != '&'
    ensures !IsSpecial(c) ==> r == [c]
  {
    match c
    case '&' => "&amp;"
    case '<' => "&lt;"
    case '>' => "&gt;"
    case '"' => "&quot;"
    case '\'' => "&#039;"
    case _ => [c]
  }

  /** A reference definition: every character escaped independently, in a
      single pass. */
  function EscapeEach(s: string): (r: string)
  {
    if s == [] then [] else EscapeChar(s[0]) + EscapeEach(s[1..])
  }

  lemma ReplaceCharOne(c: char, d: char, entity: string)
    ensures ReplaceChar([c], d, entity) == if c == d then entity else [c]
  {
    assert [c][1..] == [];
  }

  /** The passes after the one for `&` leave a string without their
      characters alone; likewise for the shorter tails of the chain. */
  lemma PassesAfterAmpFix(s: string)
    requires '<' !in s && '>' !in s && '"' !in s && '\'' !in s
    ensures ReplaceChar(ReplaceChar(ReplaceChar(ReplaceChar(
      s, '<', "&lt;"), '>', "&gt;"), '"', "&quot;"), '\'', "&#039;") == s
  {
  }

  lemma PassesAfterLtFix(s: string)
    requires '>' !in s && '"' !in s && '\'' !in s
    ensures ReplaceChar(ReplaceChar(ReplaceChar(s, '>', "&gt;"), '"', "&quot;"), '\'', "&#039;") == s
  {
  }

  lemma PassesAfterGtFix(s: string)
    requires '"' !in s && '\'' !in s
    ensures ReplaceChar(ReplaceChar(s, '"', "&quot;"), '\'', "&#039;") == s
  {
  }

  lemma EscapeHtmlAmp(c: char)
    requires c == '&'
    ensures EscapeHtml([c]) == "&amp;"
  {
    ReplaceCharOne(c, '&', "&amp;");
    PassesAfterAmpFix(ReplaceChar([c], '&', "&amp;"));
  }

  lemma EscapeHtmlLt(c: char)
    requires c == '<'
    ensures EscapeHtml([c]) == "&lt;"
  {
    ReplaceCharOne(c, '&', "&amp;");
    ReplaceCharOne(c, '<', "&lt;");
    PassesAfterLtFix(ReplaceChar([c], '<', "&lt;"));
  }

  lemma EscapeHtmlGt(c: char)
    requires c == '>'
    ensures EscapeHtml([c]) == "&gt;"
  {
    ReplaceCharOne(c, '&', "&amp;");
    ReplaceCharOne(c, '<', "&lt;");
    ReplaceCharOne(c, '>', "&gt;");
    PassesAfterGtFix(ReplaceChar([c], '>', "&gt;"));
  }

  lemma EscapeHtmlQuote(c: char)
    requires c == '"'
    ensures EscapeHtml([c]) == "&quot;"
  {
    ReplaceCharOne(c, '&', "&amp;");
    ReplaceCharOne(c, '<', "&lt;");
    ReplaceCharOne(c, '>', "&gt;");
    ReplaceCharOne(c, '"', "&quot;");
    var q := ReplaceChar([c], '"', "&quot;");
    assert '\'' !in q;
  }

  lemma EscapeHtmlApostrophe(c: char)
    requires c == '\''
    ensures EscapeHtml([c]) == "&#039;"
  {
    ReplaceCharOne(c, '&', "&amp;");
    ReplaceCharOne(c, '<', "&lt;");
    ReplaceCharOne(c, '>', "&gt;");
    ReplaceCharOne(c, '"', "&quot;");
    ReplaceCharOne(c, '\'', "&#039;");
  }

  lemma EscapeHtmlPlainChar(c: char)
    requires !IsSpecial(c)
    ensures EscapeHtml([c]) == [c]
  {
    ReplaceCharOne(c, '&', "&amp;");
    ReplaceCharOne(c, '<', "&lt;");
    ReplaceCharOne(c, '>', "&gt;");
    ReplaceCharOne(c, '"', "&quot;");
    ReplaceCharOne(c, '\'', "&#039;");
  }

  lemma EscapeHtmlOneChar(c: char)
    ensures EscapeHtml([c]) == EscapeChar(c)
  {
    if c == '&' {
      EscapeHtmlAmp(c);
    } else if c == '<' {
      EscapeHtmlLt(c);
    } else if c == '>' {
      EscapeHtmlGt(c);
    } else if c == '"' {
      EscapeHtmlQuote(c);
    } else if c == '\'' {
      EscapeHtmlApostrophe(c);
    } else {
      EscapeHtmlPlainChar(c);
    }
  }

  /** Because `&` is replaced first, the later passes never see an `&`
      they introduced, and the chain equals the single-pass escape. */
  lemma {:induction false} EscapeHtmlIsSinglePass(s: string)
    ensures EscapeHtml(s) == EscapeEach(s)
  {
    if s != [] {
      var t1 := ReplaceChar(s, '&', "&amp;");
      var t2 := ReplaceChar(t1, '<', "&lt;");
      var t3 := ReplaceChar(t2, '>', "&gt;");
      var t4 := ReplaceChar(t3, '"', "&quot;");
      var h, rest := [s[0]], s[1..];
      assert s == h + rest;
      ReplaceCharAppend(h, rest, '&', "&amp;");
      var h1, r1 := ReplaceChar(h, '&', "&amp;"), ReplaceChar(rest, '&', "&amp;");
      ReplaceCharAppend(h1, r1, '<', "&lt;");
      var h2, r2 := ReplaceChar(h1, '<', "&lt;"), ReplaceChar(r1, '<', "&lt;");
      ReplaceCharAppend(h2, r2, '>', "&gt;");
      var h3, r3 := ReplaceChar(h2, '>', "&gt;"), ReplaceChar(r2, '>', "&gt;");
      ReplaceCharAppend(h3, r3, '"', "&quot;");
      var h4, r4 := ReplaceChar(h3, '"', "&quot;"), ReplaceChar(r3, '"', "&quot;");
      ReplaceCharAppend(h4, r4, '\'', "&#039;");
      assert EscapeHtml(s) == EscapeHtml(h) + EscapeHtml(rest);
      EscapeHtmlOneChar(s[0]);
      EscapeHtmlIsSinglePass(rest);
    }
  }

  /** The five entities `escapeHtml` produces. */
  predicate EntityAt(t: string, i: nat)
    requires i <= |t|
  {
    var u := t[i..];
    "&amp;" <= u || "&lt;" <= u || "&gt;" <= u || "&quot;" <= u || "&#039;" <= u
  }

  /** The escaped form of a string holds none of `<`, `>`, `"`, `'`, and
      every `&` in it starts one of the five entities. */
  ghost predicate IsEscaped(t: string) {
    && (forall i :: 0 <= i < |t| ==> t[i] != '<' && t[i] != '>' && t[i] != '"' && t[i] != '\'')
    && (forall i :: 0 <= i < |t| && t[i] == '&' ==> EntityAt(t, i))
  }

  lemma {:induction false} EscapeEachIsEscaped(s: string)
    ensures IsEscaped(EscapeEach(s))
  {
    if s != [] {
      var e, rest := EscapeChar(s[0]), EscapeEach(s[1..]);
      EscapeEachIsEscaped(s[1..]);
      var t := e + rest;
      assert EscapeEach(s) == t;
      forall i | 0 <= i < |t|
        ensures t[i] != '<' && t[i] != '>' && t[i] != '"' && t[i] != '\''
        ensures t[i] == '&' ==> EntityAt(t, i)
      {
        if i < |e| {
          assert t[i] == e[i];
          if t[i] == '&' {
            assert i == 0 && IsSpecial(s[0]);
            assert e <= t[i..];
          }
        } else {
          assert t[i] == rest[i - |e|];
          assert t[i..] == rest[i - |e|..];
        }
      }
    }
  }

  lemma EscapeHtmlIsEscaped(s: string)
    ensures IsEscaped(EscapeHtml(s))
  {
    EscapeHtmlIsSinglePass(s);
    EscapeEachIsEscaped(s);
  }

  /** A string with none of the five special characters is returned as is. */
  lemma EscapeHtmlFixesPlain(s: string)
    requires forall i :: 0 <= i < |s| ==> !IsSpecial(s[i])
    ensures EscapeHtml(s) == s
  {
    assert '&' !in s && '<' !in s && '>' !in s && '"' !in s && '\'' !in s;
  }

  // ---------------------------------------------------------------------
  // normalizeTextAnswer
  // ---------------------------------------------------------------------

  /** `normalizeTextAnswer`: lower-case, trim, white-space runs to one space. */
  function NormalizeTextAnswer(s: string): (r: string)
  {
    ReplaceRuns(Trim(Lower(s)), IsSpace, ' ')
  }

  /** The normal form: no upper-case letter, no white space at either end,
      and every white-space character a lone space. */
  ghost predicate IsNormalized(t: string) {
    && (forall i :: 0 <= i < |t| ==> !IsUpper(t[i]))
    && (t == [] || (!IsSpace(t[0]) && !IsSpace(t[|t| - 1])))
    && NoAdjacent(t, IsSpace)
    && (forall i :: 0 <= i < |t| && IsSpace(t[i]) ==> t[i] == ' ')
  }

  lemma NormalizeIsNormalized(s: string)
    ensures IsNormalized(NormalizeTextAnswer(s))
  {
    var t := Trim(Lower(s));
    var r := NormalizeTextAnswer(s);
    TrimKeepsChars(Lower(s));
    ReplaceRunsChars(t, IsSpace, ' ', false);
    ReplaceRunsNoAdjacent(t, IsSpace, ' ', false);
    ReplaceRunsRunCharsAreRep(t, IsSpace, ' ', false);
    forall i | 0 <= i < |r| ensures !IsUpper(r[i]) {
      assert r[i] in r;
      if r[i] != ' ' {
        assert r[i] in t;
        var k :| 0 <= k < |t| && t[k] == r[i];
        assert t[k] in Lower(s);
      }
    }
    if t != [] {
      ReplaceRunsKeepsLast(t, IsSpace, ' ', false);
    }
  }

  lemma NormalizeFixesNormalized(t: string)
    requires IsNormalized(t)
    ensures NormalizeTextAnswer(t) == t
  {
    LowerFixesLower(t);
    TrimFixesTrimmed(t);
    ReplaceRunsFixes(t, IsSpace, ' ', false);
  }

  predicate NotSpace(c: char) { !IsSpace(c) }

  lemma LowerAppend(a: string, b: string)
    ensures Lower(a + b) == Lower(a) + Lower(b)
  {
  }

  /** Lower-casing commutes with dropping white space. */
  lemma {:induction false} KeepLower(s: string)
    ensures Keep(Lower(s), NotSpace) == Lower(Keep(s, NotSpace))
  {
    if s != [] {
      var c := s[0];
      var head := if NotSpace(c) then [c] else [];
      var lowHead := if NotSpace(c) then [LowerChar(c)] else [];
      KeepLower(s[1..]);
      LowerAppend([c], s[1..]);
      assert [c] + s[1..] == s;
      assert Lower([c]) == [LowerChar(c)];
      KeepAppend([LowerChar(c)], Lower(s[1..]), NotSpace);
      KeepOne(LowerChar(c), NotSpace);
      assert Keep(Lower(s), NotSpace) == lowHead + Lower(Keep(s[1..], NotSpace));
      assert Keep(s, NotSpace) == head + Keep(s[1..], NotSpace);
      LowerAppend(head, Keep(s[1..], NotSpace));
      assert Lower(head) == lowHead;
    }
  }

  /** `normalizeTextAnswer` keeps every character that is not white space,
      lower-cased and in order: answers that differ in more than case and
      spacing keep different normal forms. */
  lemma NormalizeKeepsContent(s: string)
    ensures Keep(NormalizeTextAnswer(s), NotSpace) == Lower(Keep(s, NotSpace))
  {
    KeepReplaceRuns(Trim(Lower(s)), IsSpace, ' ', false, NotSpace);
    KeepTrim(Lower(s), NotSpace);
    KeepLower(s);
  }

  /** Two words free of white space and capitals, separated by any
      white-space run, normalize to the words joined by one space: `"new
      york"` and `"newyork"` keep different normal forms. */
  lemma NormalizeJoinsWords(w1: string, sp: string, w2: string)
    requires w1 != [] && forall i :: 0 <= i < |w1| ==> !IsSpace(w1[i]) && !IsUpper(w1[i])
    requires sp != [] && forall i :: 0 <= i < |sp| ==> IsSpace(sp[i])
    requires w2 != [] && forall i :: 0 <= i < |w2| ==> !IsSpace(w2[i]) && !IsUpper(w2[i])
    ensures NormalizeTextAnswer(w1 + sp + w2) == w1 + " " + w2
  {
    WordsAroundRunTrimmed(w1, sp, w2);
    ReplaceRunsBetween(w1, sp, w2, IsSpace, ' ');
  }

  lemma NormalizeIdempotent(s: string)
    ensures NormalizeTextAnswer(NormalizeTextAnswer(s)) == NormalizeTextAnswer(s)
  {
    NormalizeIsNormalized(s);
    NormalizeFixesNormalized(NormalizeTextAnswer(s));
  }
}
