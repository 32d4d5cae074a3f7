/**
 * The blog slug: the title lower-cased, stripped to `[a-z0-9 -]`, whitespace runs
 * turned into '-', hyphen runs collapsed, and finally `trim('-')`, which is
 * `String.prototype.trim`: its argument is ignored and only whitespace is removed.
 */
module Slug {
  import opened Text

  /** `[a-z0-9 -]`: what the second step keeps. */
  predicate IsKeptChar(c: char) {
    'a' <= c <= 'z' || '0' <= c <= '9' || c == ' ' || c == '-'
  }

  predicate IsAlnum(c: char) {
    'a' <= c <= 'z' || '0' <= c <= '9'
  }

  predicate IsHyphen(c: char) {
    c == '-'
  }

  /** Letters, digits and hyphens are neither whitespace nor upper-case. */
  lemma SlugCharFacts()
    ensures forall c :: IsAlnum(c) || c == '-' ==> !IsJsSpace(c) && !IsUpperAscii(c) && IsKeptChar(c)
    ensures forall c :: IsJsSpace(c) ==> !IsAlnum(c)
    ensures forall c :: IsHyphen(c) ==> !IsAlnum(c)
  {
  }

  /** A well-formed slug: only `[a-z0-9-]`, and never two hyphens in a row. */
  predicate IsSlug(s: string) {
    && (forall i :: 0 <= i < |s| ==> IsAlnum(s[i]) || s[i] == '-')
    && NoAdjacentRuns(s, IsHyphen)
  }

  /** The string after the first three steps, before the hyphen runs are collapsed. */
  function Hyphenated(title: string): string {
    ReplaceRuns(Filter(ToLower(title), IsKeptChar), IsJsSpace, '-')
  }

  /** The string the hook stores as `slug` for `title`. */
  function Slugify(title: string): (r: string)
    ensures IsSlug(r)
    ensures |r| <= |title|
  {
    var collapsed := ReplaceRuns(Hyphenated(title), IsHyphen, '-');
    CollapsedIsSlug(title);
    Trim(collapsed)
  }

  lemma CollapsedIsSlug(title: string)
    ensures var collapsed := ReplaceRuns(Hyphenated(title), IsHyphen, '-');
            IsSlug(collapsed) && Trim(collapsed) == collapsed
  {
    var kept := Filter(ToLower(title), IsKeptChar);
    var h := Hyphenated(title);
    var collapsed := ReplaceRuns(h, IsHyphen, '-');
    ReplaceRunsCharset(kept, IsJsSpace, '-');
    ReplaceRunsCharset(h, IsHyphen, '-');
    assert IsHyphen('-');
    ReplaceRunsNoAdjacent(h, IsHyphen, '-');
    assert forall c :: c in h ==> IsAlnum(c) || c == '-' by {
      forall c | c in h ensures IsAlnum(c) || c == '-' {
        if c != '-' {
          assert c in kept && !IsJsSpace(c);
          var i :| 0 <= i < |kept| && kept[i] == c;
          assert IsKeptChar(kept[i]);
        }
      }
    }
    forall i | 0 <= i < |collapsed|
      ensures IsAlnum(collapsed[i]) || collapsed[i] == '-'
    {
      assert collapsed[i] in collapsed;
    }
    forall i | 0 <= i < |collapsed| - 1
      ensures !(collapsed[i] == '-' && collapsed[i + 1] == '-')
    {
      assert !(IsHyphen(collapsed[i]) && IsHyphen(collapsed[i + 1]));
    }
    SlugCharFacts();
    TrimNoSpace(collapsed);
  }

  /** The final `trim` finds nothing to remove. */
  lemma SlugifyIsCollapsed(title: string)
    ensures Slugify(title) == ReplaceRuns(Hyphenated(title), IsHyphen, '-')
  {
    CollapsedIsSlug(title);
  }

  /** Slugging a slug gives it back unchanged. */
  lemma SlugifyIdempotent(title: string)
    ensures Slugify(Slugify(title)) == Slugify(title)
  {
    var s := Slugify(title);
    SlugCharFacts();
    ToLowerNoUpper(s);
    FilterKeepsAll(s, IsKeptChar);
    ReplaceRunsNoRun(s, IsJsSpace, '-');
    assert Hyphenated(s) == s;
    assert SingleRuns(s, IsHyphen, '-');
    ReplaceRunsFixpoint(s, IsHyphen, '-');
    CollapsedIsSlug(s);
  }

  /**
   * The slug keeps exactly the letters and digits of the lower-cased title, in order:
   * all the steps do is drop other characters and lay down or merge hyphens.
   */
  lemma SlugifyKeepsAlnum(title: string)
    ensures Filter(Slugify(title), IsAlnum) == Filter(ToLower(title), IsAlnum)
  {
    var kept := Filter(ToLower(title), IsKeptChar);
    var h := Hyphenated(title);
    var collapsed := ReplaceRuns(h, IsHyphen, '-');
    SlugifyIsCollapsed(title);
    assert forall c :: IsHyphen(c) ==> !IsAlnum(c);
    assert forall c :: IsJsSpace(c) ==> !IsAlnum(c);
    FilterReplaceRuns(h, IsHyphen, '-', IsAlnum);
    assert Filter(collapsed, IsAlnum) == Filter(h, IsAlnum);
    FilterReplaceRuns(kept, IsJsSpace, '-', IsAlnum);
    assert Filter(h, IsAlnum) == Filter(kept, IsAlnum);
    FilterOfFilter(ToLower(title), IsKeptChar, IsAlnum);
  }

  /** A title word: non-empty, made of ASCII letters and digits. */
  predicate IsTitleWord(w: string) {
    w != [] && forall i :: 0 <= i < |w| ==> IsAlnum(ToLowerChar(w[i]))
  }

  /**
   * A title of letter-and-digit words separated by single spaces slugs to the
   * lower-cased words joined by single hyphens.
   */
  lemma SlugOfWords(words: seq<string>)
    requires |words| >= 1
    requires forall k :: 0 <= k < |words| ==> IsTitleWord(words[k])
    ensures Slugify(Join(words, ' ')) == Join(ToLowerAll(words), '-')
  {
    var lw := ToLowerAll(words);
    HyphenatedWords(words);
    SlugCharFacts();
    ReplaceRunsJoin(lw, '-', IsHyphen, '-');
    CollapsedIsSlug(Join(words, ' '));
  }

  lemma HyphenatedWords(words: seq<string>)
    requires |words| >= 1
    requires forall k :: 0 <= k < |words| ==> IsTitleWord(words[k])
    ensures Hyphenated(Join(words, ' ')) == Join(ToLowerAll(words), '-')
    ensures forall k, i :: 0 <= k < |words| && 0 <= i < |ToLowerAll(words)[k]| ==> IsAlnum(ToLowerAll(words)[k][i])
  {
    var lw := ToLowerAll(words);
    SlugCharFacts();
    ToLowerJoin(words, ' ');
    forall k, i | 0 <= k < |lw| && 0 <= i < |lw[k]|
      ensures IsAlnum(lw[k][i])
    {
      assert lw[k][i] == ToLowerChar(words[k][i]);
    }
    FilterKeepsJoin(lw, ' ', IsKeptChar);
    ReplaceRunsJoin(lw, ' ', IsJsSpace, '-');
  }

  /** The title used by the blog creation test. */
  lemma SlugOfNewTestBlog()
    ensures Slugify("New Test Blog") == "new-test-blog"
  {
    NewTestBlogJoins();
    LowerNewTestBlog();
    assert IsTitleWord("New") && IsTitleWord("Test") && IsTitleWord("Blog");
    SlugOfWords(["New", "Test", "Blog"]);
  }

  lemma NewTestBlogJoins()
    ensures Join(["New", "Test", "Blog"], ' ') == "New Test Blog"
    ensures Join(["new", "test", "blog"], '-') == "new-test-blog"
  {
    JoinThree("New", "Test", "Blog", ' ');
    JoinThree("new", "test", "blog", '-');
    assert "New" + [' '] + ("Test" + [' '] + "Blog") == "New Test Blog";
    assert "new" + ['-'] + ("test" + ['-'] + "blog") == "new-test-blog";
  }

  lemma JoinThree(a: string, b: string, c: string, sep: char)
    ensures Join([a, b, c], sep) == a + [sep] + (b + [sep] + c)
  {
    assert [a, b, c][1..] == [b, c];
    assert [b, c][1..] == [c];
    assert Join([b, c], sep) == b + [sep] + c;
  }

  lemma LowerNewTestBlog()
    ensures ToLowerAll(["New", "Test", "Blog"]) == ["new", "test", "blog"]
  {
    assert ToLower("New") == "new";
    assert ToLower("Test") == "test";
    assert ToLower("Blog") == "blog";
  }

  /** A tab is not in `[a-z0-9 -]`, so it is deleted rather than turned into a hyphen. */
  lemma TabIsDeleted()
    ensures Slugify("a\tb") == "ab"
  {
    assert ToLower("a\tb") == "a\tb";
    assert Filter("a\tb", IsKeptChar) == "ab";
    ReplaceRunsNoRun("ab", IsJsSpace, '-');
    ReplaceRunsNoRun("ab", IsHyphen, '-');
    CollapsedIsSlug("a\tb");
  }

  /** `trim('-')` leaves leading and trailing hyphens in place. */
  lemma OuterHyphensSurvive()
    ensures Slugify("-Go-") == "-go-"
  {
    assert ToLower("-Go-") == "-go-";
    FilterKeepsAll("-go-", IsKeptChar);
    ReplaceRunsNoRun("-go-", IsJsSpace, '-');
    assert SingleRuns("-go-", IsHyphen, '-');
    ReplaceRunsFixpoint("-go-", IsHyphen, '-');
    CollapsedIsSlug("-Go-");
  }
}
