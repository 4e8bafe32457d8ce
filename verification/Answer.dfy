/**
 * The answer canonicaliser `cleanseAnswer` of the game controller: both the
 * player's answer and the clue's stored answer are put through it before they
 * are compared.
 */
module Answer {
  import opened Text

  /** `s.replace(/^prefix/, "")`: drops `prefix` once when `s` starts with it. */
  function StripLeading(s: string, prefix: string): (r: string) {
    if StartsWith(s, prefix) then s[|prefix|..] else s
  }

  /** Lines 180-181: the first `<i>`, then the first `</i>`, are cut out. */
  function Untag(s: string): (r: string) {
    ReplaceFirst(ReplaceFirst(s, "<i>"), "</i>")
  }

  /** Lines 182-183: every space, then every double quote, is deleted. */
  function Compact(s: string): (r: string) {
    RemoveAll(RemoveAll(s, ' '), '"')
  }

  /** `cleanseAnswer(input)`: lower-case, untag, compact, drop a leading article, trim. */
  function Cleanse(input: string): (r: string)
    ensures |r| <= |input|
  {
    var lowered := Lower(input);
    var compact := Compact(Untag(lowered));
    var unarticled := StripLeading(StripLeading(compact, "a "), "an ");
    Trim(unarticled)
  }

  lemma CompactHasNoSpaceOrQuote(s: string)
    ensures ' ' !in Compact(s) && '"' !in Compact(s)
    ensures multiset(Compact(s)) <= multiset(s)
  {
    RemoveAllRemoves(s, ' ');
    RemoveAllRemoves(RemoveAll(s, ' '), '"');
    assert ' ' !in multiset(RemoveAll(s, ' '));
    assert ' ' !in multiset(Compact(s));
  }

  lemma NoArticleWithoutSpace(s: string)
    requires ' ' !in s
    ensures StripLeading(s, "a ") == s && StripLeading(s, "an ") == s
  {
    if |s| >= 2 {
      assert s[..2][1] == s[1];
    }
    if |s| >= 3 {
      assert s[..3][2] == s[2];
    }
  }

  /**
   * The article rules of lines 184-185 never fire: by then line 182 has removed
   * every space, so neither `a ` nor `an ` can start the text.
   */
  lemma ArticleRulesInert(input: string)
    ensures Cleanse(input) == Trim(Compact(Untag(Lower(input))))
  {
    var compact := Compact(Untag(Lower(input)));
    CompactHasNoSpaceOrQuote(Untag(Lower(input)));
    NoArticleWithoutSpace(compact);
  }

  /**
   * What comes out of the canonicaliser: no space, no double quote, no
   * upper-case ASCII letter, no whitespace at either end, and every
   * character was already in the (lower-cased) input.
   */
  lemma CleanseShape(input: string)
    ensures ' ' !in Cleanse(input) && '"' !in Cleanse(input)
    ensures NoUpper(Cleanse(input))
    ensures Cleanse(input) == [] || (!IsWhitespace(Cleanse(input)[0]) && !IsWhitespace(Cleanse(input)[|Cleanse(input)| - 1]))
    ensures multiset(Cleanse(input)) <= multiset(Lower(input))
  {
    var lowered := Lower(input);
    var untagged := Untag(lowered);
    var compact := Compact(untagged);
    ArticleRulesInert(input);
    ReplaceFirstShrinks(lowered, "<i>");
    ReplaceFirstShrinks(ReplaceFirst(lowered, "<i>"), "</i>");
    CompactHasNoSpaceOrQuote(untagged);
    var left, right := TrimSplit(compact);
    var r := Trim(compact);
    assert multiset(compact) == multiset(left) + multiset(r) + multiset(right);
    assert multiset(r) <= multiset(lowered);
    LowerHasNoUpper(input);
    NoUpperShrinks(r, lowered);
    assert ' ' !in multiset(r) && '"' !in multiset(r);
  }

  /** Whitespace is neither upper-case nor part of either italic tag. */
  lemma WhitespaceIsInert(w: string)
    requires AllWhitespace(w)
    ensures NoUpper(w) && Disjoint(w, "<i>") && Disjoint(w, "</i>")
    ensures Lower(w) == w
  {
    LowerOfNoUpper(w);
  }

  lemma UntagPadded(l: string, x: string, r: string)
    requires AllWhitespace(l) && AllWhitespace(r)
    ensures Untag(l + x + r) == l + Untag(x) + r
  {
    WhitespaceIsInert(l);
    WhitespaceIsInert(r);
    assert l + x + r == l + (x + r);
    ReplaceFirstSkipsPrefix(l, x + r, "<i>");
    ReplaceFirstSkipsSuffix(x, r, "<i>");
    var once := ReplaceFirst(x, "<i>");
    assert l + (once + r) == l + once + r;
    assert l + once + r == l + (once + r);
    ReplaceFirstSkipsPrefix(l, once + r, "</i>");
    ReplaceFirstSkipsSuffix(once, r, "</i>");
  }

  lemma CompactPadded(l: string, y: string, r: string)
    requires AllWhitespace(l) && AllWhitespace(r)
    ensures Compact(l + y + r) == Compact(l) + Compact(y) + Compact(r)
    ensures AllWhitespace(Compact(l)) && AllWhitespace(Compact(r))
  {
    RemoveAllAppend(l + y, r, ' ');
    RemoveAllAppend(l, y, ' ');
    RemoveAllAppend(RemoveAll(l, ' ') + RemoveAll(y, ' '), RemoveAll(r, ' '), '"');
    RemoveAllAppend(RemoveAll(l, ' '), RemoveAll(y, ' '), '"');
    RemoveAllKeepsWhitespace(l, ' ');
    RemoveAllKeepsWhitespace(RemoveAll(l, ' '), '"');
    RemoveAllKeepsWhitespace(r, ' ');
    RemoveAllKeepsWhitespace(RemoveAll(r, ' '), '"');
  }

  /**
   * Line 160 trims the player's answer before canonicalising it; that trim
   * never changes the outcome, since the canonicaliser ignores surrounding
   * whitespace.
   */
  lemma CleanseOfTrim(s: string)
    ensures Cleanse(Trim(s)) == Cleanse(s)
  {
    var l, r := TrimSplit(s);
    var t := Trim(s);
    WhitespaceIsInert(l);
    WhitespaceIsInert(r);
    LowerAppend(l + t, r);
    LowerAppend(l, t);
    assert Lower(s) == l + Lower(t) + r;
    UntagPadded(l, Lower(t), r);
    var core := Untag(Lower(t));
    CompactPadded(l, core, r);
    ArticleRulesInert(s);
    ArticleRulesInert(t);
    TrimPadded(Compact(l), Compact(core), Compact(r));
  }

  /** The canonicaliser lower-cases first, so the letter case of its input never matters. */
  lemma CleanseIgnoresCase(s: string)
    ensures Cleanse(Lower(s)) == Cleanse(s)
  {
    LowerHasNoUpper(s);
    LowerOfNoUpper(Lower(s));
  }

  /**
   * Canonicalising a canonical text changes nothing, provided no italic tag is
   * left in it.
   */
  lemma CleanseIdempotentWhenTagFree(s: string)
    requires forall k: nat :: !OccursAt(Cleanse(s), "<i>", k)
    requires forall k: nat :: !OccursAt(Cleanse(s), "</i>", k)
    ensures Cleanse(Cleanse(s)) == Cleanse(s)
  {
    var c := Cleanse(s);
    CleanseShape(s);
    LowerOfNoUpper(c);
    ReplaceFirstAbsent(c, "<i>");
    ReplaceFirstAbsent(c, "</i>");
    RemoveAllCounts(c, ' ');
    RemoveAllAbsent(c, ' ');
    RemoveAllAbsent(c, '"');
    ArticleRulesInert(c);
    TrimOfTrimmed(c);
  }

  /** Text without a `<` holds no italic tag, so `Untag` leaves it alone. */
  lemma UntagWithoutAngle(s: string)
    requires '<' !in s
    ensures Untag(s) == s
  {
    NoOccurrenceWithoutHead(s, "<i>");
    ReplaceFirstAbsent(s, "<i>");
    NoOccurrenceWithoutHead(s, "</i>");
    ReplaceFirstAbsent(s, "</i>");
  }

  /** Text without a space or a double quote is left alone by `Compact`. */
  lemma CompactWithoutSpaceOrQuote(s: string)
    requires ' ' !in s && '"' !in s
    ensures Compact(s) == s
  {
    RemoveAllAbsent(s, ' ');
    RemoveAllAbsent(s, '"');
  }

  /** A character the canonicaliser keeps as it is: not upper-case, not whitespace, not `<`, not `"`. */
  predicate PlainChar(c: char) {
    !IsUpper(c) && !IsWhitespace(c) && c != '<' && c != '"'
  }

  /** A word made of plain characters only, such as `paris` or `dog`. */
  predicate Plain(w: string) {
    forall i :: 0 <= i < |w| ==> PlainChar(w[i])
  }

  lemma PlainFacts(w: string)
    requires Plain(w)
    ensures NoUpper(w) && '<' !in w && ' ' !in w && '"' !in w
    ensures w == [] || (!IsWhitespace(w[0]) && !IsWhitespace(w[|w| - 1]))
  {
    assert !IsUpper(' ') && IsWhitespace(' ');
  }

  /**
   * Lower-casing that changes nothing, then the tag rules giving `u`, where
   * `u` has no space, no double quote and no whitespace at its ends: `u` is
   * the canonical form.
   */
  lemma CleanseOfUntagged(s: string, u: string)
    requires NoUpper(s) && Untag(s) == u && ' ' !in u && '"' !in u
    requires u == [] || (!IsWhitespace(u[0]) && !IsWhitespace(u[|u| - 1]))
    ensures Cleanse(s) == u
  {
    LowerOfNoUpper(s);
    ArticleRulesInert(s);
    CompactWithoutSpaceOrQuote(u);
    TrimOfTrimmed(u);
  }

  /** A plain word is its own canonical form. */
  lemma PlainIsCanonical(w: string)
    requires Plain(w)
    ensures Cleanse(w) == w
  {
    PlainFacts(w);
    UntagWithoutAngle(w);
    CleanseOfUntagged(w, w);
  }

  /**
   * The article rules never fire, so an answer with a leading `a ` keeps the
   * article (as `a`, its space removed) and does not match the bare word.
   */
  lemma ArticleKept(w: string)
    requires Plain(w)
    ensures Cleanse("a " + w) == "a" + w
    ensures Cleanse("a " + w) != Cleanse(w)
  {
    PlainFacts(w);
    ArticleLowered(w);
    CompactArticle(w);
    CleanseOfCompact("a " + w, "a" + w);
    PlainIsCanonical(w);
  }

  lemma ArticleLowered(w: string)
    requires NoUpper(w)
    ensures NoUpper("a " + w)
  {
    assert NoUpper("a ");
    NoUpperAppend("a ", w);
  }

  lemma CompactArticle(w: string)
    requires ' ' !in w && '"' !in w
    ensures Compact("a " + w) == "a" + w
  {
    assert "a " + w == "a" + [' '] + w;
    RemoveAllOnce("a", w, ' ');
    RemoveAllAbsent("a" + w, '"');
  }

  /**
   * Lower-casing that changes nothing, no `<` at all, and compacting giving
   * `c` with no whitespace at its ends: `c` is the canonical form.
   */
  lemma CleanseOfCompact(s: string, c: string)
    requires NoUpper(s) && '<' !in s && Compact(s) == c
    requires c == [] || (!IsWhitespace(c[0]) && !IsWhitespace(c[|c| - 1]))
    ensures Cleanse(s) == c
  {
    LowerOfNoUpper(s);
    UntagWithoutAngle(s);
    ArticleRulesInert(s);
    TrimOfTrimmed(c);
  }

  /** `<i>` followed by text with no `<`: both tag rules fire, the first at the start, the second right after that text. */
  lemma UntagItalicPair(w: string)
    requires '<' !in w
    ensures Untag("<i>" + w + "</i>") == w
  {
    var s := "<i>" + w + "</i>";
    var t := w + "</i>";
    calc {
      ReplaceFirst(s, "<i>");
    == { assert s[..3] == "<i>"; ReplaceFirstAt(s, "<i>", 0); }
      s[3..];
    == { assert s[3..] == t; }
      t;
    }
    assert OccursAt(t, "</i>", |w|) by {
      assert t[|w|..|w| + 4] == "</i>";
    }
    NoOccurrenceBefore(t, "</i>", |w|);
    ReplaceFirstAt(t, "</i>", |w|);
    assert t[..|w|] == w && t[|w| + 4..] == [];
  }

  /**
   * Any text without `<`, in whatever letter case and with whatever spaces,
   * has the same canonical form as the same text wrapped in one italic pair.
   */
  lemma ItalicPairDropped(w: string)
    requires '<' !in w
    ensures Cleanse("<i>" + w + "</i>") == Cleanse(w)
  {
    var lw := Lower(w);
    calc {
      Lower("<i>" + w + "</i>");
    == { LowerAppend("<i>" + w, "</i>"); LowerAppend("<i>", w); }
      Lower("<i>") + lw + Lower("</i>");
    == { assert Lower("<i>") == "<i>" && Lower("</i>") == "</i>"; }
      "<i>" + lw + "</i>";
    }
    assert '<' !in lw by {
      assert forall i :: 0 <= i < |lw| ==> lw[i] == LowerChar(w[i]);
    }
    calc {
      Untag("<i>" + lw + "</i>");
    == { UntagItalicPair(lw); }
      lw;
    == { UntagWithoutAngle(lw); }
      Untag(lw);
    }
  }

  /** A plain word wrapped in one italic pair canonicalises to the word itself. */
  lemma ItalicPairIgnored(w: string)
    requires Plain(w)
    ensures Cleanse("<i>" + w + "</i>") == w == Cleanse(w)
  {
    PlainFacts(w);
    ItalicPairDropped(w);
    PlainIsCanonical(w);
  }

  lemma UntagTwoPairs(x: string, y: string)
    requires '<' !in x
    ensures Untag("<i>" + x + "</i><i>" + y + "</i>") == x + "<i>" + y + "</i>"
  {
    var s := "<i>" + x + "</i><i>" + y + "</i>";
    var t := x + "</i><i>" + y + "</i>";
    calc {
      ReplaceFirst(s, "<i>");
    == { assert s[..3] == "<i>"; ReplaceFirstAt(s, "<i>", 0); }
      s[3..];
    == { assert s[3..] == t; }
      t;
    }
    calc {
      ReplaceFirst(t, "</i>");
    == { assert t[|x|..|x| + 4] == "</i>";
         NoOccurrenceBefore(t, "</i>", |x|);
         ReplaceFirstAt(t, "</i>", |x|); }
      t[..|x|] + t[|x| + 4..];
    == { assert t[..|x|] == x && t[|x| + 4..] == "<i>" + y + "</i>"; }
      x + "<i>" + y + "</i>";
    }
  }

  /** Only the first `<i>` and the first `</i>` are removed; the second pair stays. */
  lemma OnlyFirstTagsRemoved(x: string, y: string)
    requires Plain(x) && Plain(y)
    ensures Cleanse("<i>" + x + "</i><i>" + y + "</i>") == x + "<i>" + y + "</i>"
  {
    PlainFacts(x);
    PlainFacts(y);
    var s := "<i>" + x + "</i><i>" + y + "</i>";
    var u := x + "<i>" + y + "</i>";
    assert NoUpper(s) by {
      assert NoUpper("<i>") && NoUpper("</i><i>") && NoUpper("</i>");
      NoUpperAppend("<i>", x);
      NoUpperAppend("<i>" + x, "</i><i>");
      NoUpperAppend("<i>" + x + "</i><i>", y);
      NoUpperAppend("<i>" + x + "</i><i>" + y, "</i>");
    }
    assert ' ' !in u && '"' !in u;
    assert !IsWhitespace(u[0]) && !IsWhitespace(u[|u| - 1]) by {
      assert u[|u| - 1] == '>';
      assert u[0] == if x == [] then '<' else x[0];
    }
    UntagTwoPairs(x, y);
    CleanseOfUntagged(s, u);
  }

  lemma UntagNested(w: string)
    requires '<' !in w
    ensures Untag("<<i>i>" + w) == "<i>" + w
  {
    var s := "<<i>i>" + w;
    var u := "<i>" + w;
    calc {
      ReplaceFirst(s, "<i>");
    == { assert s[1..4] == "<i>";
         assert s[..3][1] != "<i>"[1];
         assert forall j: nat :: j < 1 ==> !OccursAt(s, "<i>", j);
         ReplaceFirstAt(s, "<i>", 1); }
      s[..1] + s[4..];
    == { assert s[..1] == "<" && s[4..] == "i>" + w; }
      u;
    }
    forall k: nat ensures !OccursAt(u, "</i>", k) {
      if k + 4 <= |u| {
        assert u[k..k + 4][0] == u[k] && u[k..k + 4][1] == u[k + 1];
      }
    }
    ReplaceFirstAbsent(u, "</i>");
  }

  lemma UntagLeading(w: string)
    requires '<' !in w
    ensures Untag("<i>" + w) == w
  {
    var u := "<i>" + w;
    calc {
      ReplaceFirst(u, "<i>");
    == { assert u[..3] == "<i>"; ReplaceFirstAt(u, "<i>", 0); }
      u[3..];
    == { assert u[3..] == w; }
      w;
    }
    NoOccurrenceWithoutHead(w, "</i>");
    ReplaceFirstAbsent(w, "</i>");
  }

  lemma TagsLowered(w: string)
    requires NoUpper(w)
    ensures NoUpper("<<i>i>" + w) && NoUpper("<i>" + w)
  {
    assert NoUpper("<<i>i>") && NoUpper("<i>");
    NoUpperAppend("<<i>i>", w);
    NoUpperAppend("<i>", w);
  }

  /**
   * Canonicalising is not idempotent: cutting the first `<i>` out of `<<i>i>`
   * joins the text around it into a new `<i>`, which a second pass removes.
   */
  lemma TagReappears(w: string)
    requires Plain(w)
    ensures Cleanse("<<i>i>" + w) == "<i>" + w
    ensures Cleanse(Cleanse("<<i>i>" + w)) == w != Cleanse("<<i>i>" + w)
  {
    PlainFacts(w);
    TagsLowered(w);
    UntagNested(w);
    UntagLeading(w);
    var u := "<i>" + w;
    assert ' ' !in u && '"' !in u;
    assert !IsWhitespace(u[0]) && !IsWhitespace(u[|u| - 1]) by {
      assert u[|u| - 1] == if w == [] then '>' else w[|w| - 1];
    }
    CleanseOfUntagged("<<i>i>" + w, u);
    CleanseOfUntagged(u, w);
  }
}
