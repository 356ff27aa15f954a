/** Slug derivation from prisma/seed.ts: lower-case the title, replace
    every run of characters outside [a-z0-9] by one `-` (the global regular
    expression `[^a-z0-9]+`), then drop one leading and one trailing `-`
    (the global expression `^-|-$`).  Lower-casing is modelled for ASCII. */
module Slug {
  import JsNumbers

  predicate IsUpper(c: char) {
    'A' <= c <= 'Z'
  }

  /** ASCII `toLowerCase` on one character. */
  function LowerChar(c: char): (d: char)
    ensures IsUpper(c) ==> 'a' <= d <= 'z' && d as int - 'a' as int == c as int - 'A' as int
    ensures !IsUpper(c) ==> d == c
    ensures IsSlugChar(d) <==> IsSlugChar(c) || IsUpper(c)
  {
    if IsUpper(c) then (c as int + 32) as char else c
  }

  /** `s.toLowerCase()`, character by character. */
  function Lower(s: string): (r: string)
    ensures |r| == |s|
    ensures forall j :: 0 <= j < |s| ==> r[j] == LowerChar(s[j])
  {
    seq(|s|, j requires 0 <= j < |s| => LowerChar(s[j]))
  }

  /** The characters `[a-z0-9]` that survive into a slug. */
  predicate IsSlugChar(c: char) {
    'a' <= c <= 'z' || JsNumbers.IsDigit(c)
  }

  /** Every character is a slug character or a dash. */
  predicate SlugAlphabet(s: string) {
    forall i :: 0 <= i < |s| ==> IsSlugChar(s[i]) || s[i] == '-'
  }

  predicate NoDoubleDash(s: string) {
    forall i :: 0 <= i < |s| - 1 ==> !(s[i] == '-' && s[i + 1] == '-')
  }

  predicate NoEdgeDash(s: string) {
    s == [] || (s[0] != '-' && s[|s| - 1] != '-')
  }

  /** What a slug looks like. */
  predicate WellFormedSlug(s: string) {
    SlugAlphabet(s) && NoDoubleDash(s) && NoEdgeDash(s)
  }

  /** The slug characters of s, in order. */
  function KeepSlugChars(s: string): string {
    if s == [] then []
    else (if IsSlugChar(s[0]) then [s[0]] else []) + KeepSlugChars(s[1..])
  }

  /** s without its dashes, in order. */
  function RemoveDashes(s: string): string {
    if s == [] then []
    else (if s[0] != '-' then [s[0]] else []) + RemoveDashes(s[1..])
  }

  lemma {:induction false} RemoveDashesAppend(x: string, y: string)
    ensures RemoveDashes(x + y) == RemoveDashes(x) + RemoveDashes(y)
    decreases |x|
  {
    if x != [] {
      assert (x + y)[0] == x[0] && (x + y)[1..] == x[1..] + y;
      RemoveDashesAppend(x[1..], y);
      var head := if x[0] != '-' then [x[0]] else [];
      assert RemoveDashes(x + y) == head + RemoveDashes(x[1..] + y);
    } else {
      assert x + y == y;
    }
  }

  /** `s.replace(/[^a-z0-9]+/g, "-")` on the suffix s[i..], scanning left
      to right; `inRun` records that the previous character already opened
      a replaced run. */
  function CollapseFrom(s: string, i: nat, inRun: bool): string
    requires i <= |s|
    decreases |s| - i
  {
    if i == |s| then []
    else if IsSlugChar(s[i]) then [s[i]] + CollapseFrom(s, i + 1, false)
    else if inRun then CollapseFrom(s, i + 1, true)
    else ['-'] + CollapseFrom(s, i + 1, true)
  }

  function Collapse(s: string): string {
    CollapseFrom(s, 0, false)
  }

  /** What replacing the runs produces: only slug characters and single
      dashes, never a dash right after an open run, and the slug characters
      of the input in order once the dashes are removed. */
  lemma {:induction false} CollapseFromShape(s: string, i: nat, inRun: bool)
    requires i <= |s|
    ensures var r := CollapseFrom(s, i, inRun);
            && SlugAlphabet(r)
            && NoDoubleDash(r)
            && (inRun && r != [] ==> r[0] != '-')
            && RemoveDashes(r) == KeepSlugChars(s[i..])
    decreases |s| - i
  {
    if i < |s| {
      assert s[i..][0] == s[i] && s[i..][1..] == s[i + 1..];
      if IsSlugChar(s[i]) {
        var rest := CollapseFrom(s, i + 1, false);
        CollapseFromShape(s, i + 1, false);
        assert ([s[i]] + rest)[1..] == rest;
      } else if inRun {
        CollapseFromShape(s, i + 1, true);
      } else {
        var rest := CollapseFrom(s, i + 1, true);
        CollapseFromShape(s, i + 1, true);
        assert (['-'] + rest)[1..] == rest;
      }
    }
  }

  lemma CollapseShape(s: string)
    ensures SlugAlphabet(Collapse(s)) && NoDoubleDash(Collapse(s))
    ensures RemoveDashes(Collapse(s)) == KeepSlugChars(s)
  {
    CollapseFromShape(s, 0, false);
    assert s[0..] == s;
  }

  /** `s.replace(/(^-|-$)/g, "")`: one leading and one trailing dash go. */
  function TrimDashes(s: string): (r: string)
    ensures s == r || s == "-" + r || s == r + "-" || s == "-" + r + "-"
    ensures SlugAlphabet(s) && NoDoubleDash(s) ==> WellFormedSlug(r)
    ensures RemoveDashes(r) == RemoveDashes(s)
  {
    var a := if |s| > 0 && s[0] == '-' then s[1..] else s;
    if |a| > 0 && a[|a| - 1] == '-' then
      assert RemoveDashes(a) == RemoveDashes(a[..|a| - 1]) by {
        assert a == a[..|a| - 1] + ['-'];
        RemoveDashesAppend(a[..|a| - 1], ['-']);
      }
      a[..|a| - 1]
    else a
  }

  /** The slug of an article title. */
  function Slugify(title: string): (slug: string)
    ensures WellFormedSlug(slug)
    ensures RemoveDashes(slug) == KeepSlugChars(Lower(title))
  {
    CollapseShape(Lower(title));
    TrimDashes(Collapse(Lower(title)))
  }

  lemma LowerFixed(w: string)
    requires SlugAlphabet(w)
    ensures Lower(w) == w
  {
  }

  /** Collapsing changes nothing in a string that is already collapsed. */
  lemma {:induction false} CollapseFixed(w: string, i: nat, inRun: bool)
    requires i <= |w|
    requires SlugAlphabet(w) && NoDoubleDash(w)
    requires inRun && i < |w| ==> w[i] != '-'
    ensures CollapseFrom(w, i, inRun) == w[i..]
    decreases |w| - i
  {
    if i < |w| {
      if IsSlugChar(w[i]) {
        CollapseFixed(w, i + 1, false);
      } else {
        CollapseFixed(w, i + 1, true);
      }
      assert w[i..] == [w[i]] + w[i + 1..];
    }
  }

  /** The slugs are exactly the strings that slugify to themselves. */
  lemma SlugifyFixedPoints(s: string)
    ensures Slugify(s) == s <==> WellFormedSlug(s)
  {
    if WellFormedSlug(s) {
      LowerFixed(s);
      CollapseFixed(s, 0, false);
      assert s[0..] == s;
    }
  }

  /** Slugifying a slug returns it unchanged. */
  lemma SlugifyIdempotent(title: string)
    ensures Slugify(Slugify(title)) == Slugify(title)
  {
    SlugifyFixedPoints(Slugify(title));
  }

  /** Collapsing a suffix of a + b that lies in b is collapsing b alone. */
  lemma {:induction false} CollapseShift(a: string, b: string, i: nat, inRun: bool)
    requires i <= |b|
    ensures CollapseFrom(a + b, |a| + i, inRun) == CollapseFrom(b, i, inRun)
    decreases |b| - i
  {
    if i < |b| {
      assert (a + b)[|a| + i] == b[i];
      CollapseShift(a, b, i + 1, !IsSlugChar(b[i]));
    }
  }

  /** A prefix that ends in a slug character collapses on its own. */
  lemma {:induction false} CollapseSplitFrom(a: string, b: string, i: nat, inRun: bool)
    requires i < |a| && IsSlugChar(a[|a| - 1])
    ensures CollapseFrom(a + b, i, inRun) == CollapseFrom(a, i, inRun) + CollapseFrom(b, 0, false)
    decreases |a| - i
  {
    assert (a + b)[i] == a[i];
    var next := !IsSlugChar(a[i]);
    var head: string := if !next then [a[i]] else if inRun then [] else ['-'];
    assert CollapseFrom(a + b, i, inRun) == head + CollapseFrom(a + b, i + 1, next);
    assert CollapseFrom(a, i, inRun) == head + CollapseFrom(a, i + 1, next);
    if i == |a| - 1 {
      CollapseShift(a, b, 0, false);
    } else {
      CollapseSplitFrom(a, b, i + 1, next);
    }
  }

  lemma CollapseSplit(a: string, b: string)
    requires a != [] && IsSlugChar(a[|a| - 1])
    ensures Collapse(a + b) == Collapse(a) + Collapse(b)
  {
    CollapseSplitFrom(a, b, 0, false);
  }

  /** Lower-casing works piecewise. */
  lemma LowerAppend(a: string, b: string)
    ensures Lower(a + b) == Lower(a) + Lower(b)
  {
  }

  /** A word: slug characters only, no dashes. */
  predicate AllSlug(w: string) {
    forall i :: 0 <= i < |w| ==> IsSlugChar(w[i])
  }

  lemma CollapseWordOnly(w: string)
    requires AllSlug(w)
    ensures Collapse(w) == w
  {
    CollapseFixed(w, 0, false);
    assert w[0..] == w;
  }

  /** One separator followed by a word becomes a dash and the word. */
  lemma CollapseGapWord(c: char, w: string)
    requires !IsSlugChar(c) && w != [] && AllSlug(w)
    ensures Collapse([c] + w) == "-" + w
  {
    CollapseShift([c], w, 0, true);
    CollapseFixed(w, 0, true);
    assert w[0..] == w;
  }

  /** No character of g survives into a slug. */
  predicate NoSlugChars(g: string) {
    forall i :: 0 <= i < |g| ==> !IsSlugChar(g[i])
  }

  /** Inside an open run, the rest of the run is dropped. */
  lemma {:induction false} CollapseSkipRun(g: string, v: string, i: nat)
    requires i <= |g| && NoSlugChars(g)
    ensures CollapseFrom(g + v, i, true) == CollapseFrom(v, 0, true)
    decreases |g| - i
  {
    if i < |g| {
      assert (g + v)[i] == g[i];
      CollapseSkipRun(g, v, i + 1);
    } else {
      CollapseShift(g, v, 0, true);
    }
  }

  /** A whole run of separators followed by a word becomes one dash and the
      word. */
  lemma CollapseGapRun(g: string, v: string)
    requires g != [] && NoSlugChars(g) && v != [] && AllSlug(v)
    ensures Collapse(g + v) == "-" + v
  {
    assert (g + v)[0] == g[0];
    CollapseSkipRun(g, v, 1);
    CollapseFixed(v, 0, true);
    assert v[0..] == v;
  }

  /** Two words separated by any run of separators collapse to the words
      joined by one dash. */
  lemma CollapseWordsGap(u: string, g: string, v: string)
    requires u != [] && AllSlug(u) && g != [] && NoSlugChars(g) && v != [] && AllSlug(v)
    ensures Collapse(u + g + v) == u + "-" + v
  {
    assert u + g + v == u + (g + v);
    CollapseSplit(u, g + v);
    CollapseWordOnly(u);
    CollapseGapRun(g, v);
  }

  /** Appending a separator and a word to a prefix that ends in a slug
      character appends a dash and the word to its collapse. */
  lemma CollapseStep(p: string, w: string, r: string)
    requires p != [] && IsSlugChar(p[|p| - 1]) && Collapse(p) == r
    requires |w| >= 2 && !IsSlugChar(w[0]) && AllSlug(w[1..])
    ensures Collapse(p + w) == r + ("-" + w[1..])
    ensures IsSlugChar((p + w)[|p + w| - 1])
  {
    CollapseSplit(p, w);
    CollapseGapWord(w[0], w[1..]);
    assert w == [w[0]] + w[1..];
  }

  // The example lemmas below take the pieces of the title as parameters
  // fixed by their preconditions: each step then rewrites short symbolic
  // strings rather than one long literal, which keeps every proof
  // obligation small.

  /** The lower-cased seeded title, cut after each word, collapses word by
      word. */
  lemma CollapseExampleAt(w1: string, w2: string, w3: string, w4: string, w5: string, w6: string, w7: string, w8: string)
    requires w1 == "mastering" && w2 == " next" && w3 == ".js" && w4 == " 15"
    requires w5 == " and" && w6 == " the" && w7 == " app" && w8 == " router"
    ensures Collapse(w1 + w2 + w3 + w4 + w5 + w6 + w7 + w8)
         == w1 + ("-" + w2[1..]) + ("-" + w3[1..]) + ("-" + w4[1..]) + ("-" + w5[1..]) + ("-" + w6[1..]) + ("-" + w7[1..]) + ("-" + w8[1..])
  {
    CollapseWordOnly(w1);
    CollapseStep(w1, w2, w1);
    CollapseStep(w1 + w2, w3, w1 + ("-" + w2[1..]));
    CollapseStep(w1 + w2 + w3, w4, w1 + ("-" + w2[1..]) + ("-" + w3[1..]));
    CollapseStep(w1 + w2 + w3 + w4, w5, w1 + ("-" + w2[1..]) + ("-" + w3[1..]) + ("-" + w4[1..]));
    CollapseStep(w1 + w2 + w3 + w4 + w5, w6, w1 + ("-" + w2[1..]) + ("-" + w3[1..]) + ("-" + w4[1..]) + ("-" + w5[1..]));
    CollapseStep(w1 + w2 + w3 + w4 + w5 + w6, w7, w1 + ("-" + w2[1..]) + ("-" + w3[1..]) + ("-" + w4[1..]) + ("-" + w5[1..]) + ("-" + w6[1..]));
    CollapseStep(w1 + w2 + w3 + w4 + w5 + w6 + w7, w8, w1 + ("-" + w2[1..]) + ("-" + w3[1..]) + ("-" + w4[1..]) + ("-" + w5[1..]) + ("-" + w6[1..]) + ("-" + w7[1..]));
  }

  /** The words of the example joined by dashes, spelled out. */
  lemma DashedWords(w1: string, w2: string, w3: string, w4: string, w5: string, w6: string, w7: string, w8: string)
    requires w1 == "mastering" && w2 == " next" && w3 == ".js" && w4 == " 15"
    requires w5 == " and" && w6 == " the" && w7 == " app" && w8 == " router"
    ensures w1 + ("-" + w2[1..]) + ("-" + w3[1..]) + ("-" + w4[1..]) + ("-" + w5[1..]) + ("-" + w6[1..]) + ("-" + w7[1..]) + ("-" + w8[1..])
         == "mastering" + "-next" + "-js" + "-15" + "-and" + "-the" + "-app" + "-router"
  {
    assert w2[1..] == "next" && w3[1..] == "js" && w4[1..] == "15" && w5[1..] == "and";
    assert w6[1..] == "the" && w7[1..] == "app" && w8[1..] == "router";
  }

  /** Lower-casing the example title piece by piece. */
  lemma LowerStep(p: string, u: string, r: string, w: string)
    requires Lower(p) == r && Lower(u) == w
    ensures Lower(p + u) == r + w
  {
    LowerAppend(p, u);
  }

  lemma LowerWordsA(u1: string, u2: string, u3: string, u4: string)
    requires u1 == "Mastering" && u2 == " Next" && u3 == ".js" && u4 == " 15"
    ensures Lower(u1) == "mastering" && Lower(u2) == " next" && Lower(u3) == ".js" && Lower(u4) == " 15"
  {
  }

  lemma LowerWordsB(u5: string, u6: string, u7: string, u8: string)
    requires u5 == " and" && u6 == " the" && u7 == " App" && u8 == " Router"
    ensures Lower(u5) == " and" && Lower(u6) == " the" && Lower(u7) == " app" && Lower(u8) == " router"
  {
  }

  lemma LowerExampleAt(u1: string, u2: string, u3: string, u4: string, u5: string, u6: string, u7: string, u8: string)
    requires u1 == "Mastering" && u2 == " Next" && u3 == ".js" && u4 == " 15"
    requires u5 == " and" && u6 == " the" && u7 == " App" && u8 == " Router"
    ensures Lower(u1 + u2 + u3 + u4 + u5 + u6 + u7 + u8)
         == "mastering" + " next" + ".js" + " 15" + " and" + " the" + " app" + " router"
  {
    LowerWordsA(u1, u2, u3, u4);
    LowerWordsB(u5, u6, u7, u8);
    LowerStep(u1, u2, "mastering", " next");
    LowerStep(u1 + u2, u3, "mastering" + " next", ".js");
    LowerStep(u1 + u2 + u3, u4, "mastering" + " next" + ".js", " 15");
    LowerStep(u1 + u2 + u3 + u4, u5, "mastering" + " next" + ".js" + " 15", " and");
    LowerStep(u1 + u2 + u3 + u4 + u5, u6, "mastering" + " next" + ".js" + " 15" + " and", " the");
    LowerStep(u1 + u2 + u3 + u4 + u5 + u6, u7, "mastering" + " next" + ".js" + " 15" + " and" + " the", " app");
    LowerStep(u1 + u2 + u3 + u4 + u5 + u6 + u7, u8, "mastering" + " next" + ".js" + " 15" + " and" + " the" + " app", " router");
  }

  /** A string without edge dashes loses nothing to the trim. */
  lemma TrimDashesKeeps(s: string)
    requires s != [] && s[0] != '-' && s[|s| - 1] != '-'
    ensures TrimDashes(s) == s
  {
  }

  /** A title made of two words around a run of separators slugs to the
      lower-cased words joined by one dash: the dash goes exactly where the
      run was. */
  lemma SlugifyWordGap(u: string, g: string, v: string)
    requires u != [] && AllSlug(Lower(u)) && v != [] && AllSlug(Lower(v))
    requires g != [] && NoSlugChars(Lower(g))
    ensures Slugify(u + g + v) == Lower(u) + "-" + Lower(v)
  {
    var lu, lg, lv := Lower(u), Lower(g), Lower(v);
    LowerAppend(u + g, v);
    LowerAppend(u, g);
    CollapseWordsGap(lu, lg, lv);
    var c := lu + "-" + lv;
    assert c[0] == lu[0] && c[|c| - 1] == lv[|lv| - 1];
    TrimDashesKeeps(c);
  }

  /** The slug of the seeded title "Mastering Next.js 15 and the App Router",
      whose pieces are u1 to u8. */
  lemma SlugifyExample(u1: string, u2: string, u3: string, u4: string, u5: string, u6: string, u7: string, u8: string)
    requires u1 == "Mastering" && u2 == " Next" && u3 == ".js" && u4 == " 15"
    requires u5 == " and" && u6 == " the" && u7 == " App" && u8 == " Router"
    ensures Slugify(u1 + u2 + u3 + u4 + u5 + u6 + u7 + u8)
         == "mastering" + "-next" + "-js" + "-15" + "-and" + "-the" + "-app" + "-router"
  {
    LowerExampleAt(u1, u2, u3, u4, u5, u6, u7, u8);
    CollapseExampleAt("mastering", " next", ".js", " 15", " and", " the", " app", " router");
    DashedWords("mastering", " next", ".js", " 15", " and", " the", " app", " router");
    var lowered := "mastering" + " next" + ".js" + " 15" + " and" + " the" + " app" + " router";
    var c := "mastering" + "-next" + "-js" + "-15" + "-and" + "-the" + "-app" + "-router";
    assert Collapse(lowered) == c;
    assert c[0] == 'm' && c[|c| - 1] == 'r';
    TrimDashesKeeps(c);
    assert Slugify(u1 + u2 + u3 + u4 + u5 + u6 + u7 + u8) == TrimDashes(Collapse(lowered));
  }
}
