/**
 * The string operations the models rely on, with JavaScript's meaning.
 *
 * A Dafny `char` is a Unicode scalar value, whereas a JavaScript string element is
 * a UTF-16 code unit. The two agree on text within the Basic Multilingual Plane;
 * lengths and indices here are counted in scalar values.
 */
module Text {

  /** The characters matched by JavaScript's `\s`; `String.prototype.trim` strips the same set. */
  predicate IsJsSpace(c: char) {
    || c == ' ' || c == '\t' || c == '\n' || c == '\r'
    || c == '\U{000B}' || c == '\U{000C}' || c == '\U{00A0}' || c == '\U{1680}'
    || ('\U{2000}' <= c <= '\U{200A}')
    || c == '\U{2028}' || c == '\U{2029}' || c == '\U{202F}' || c == '\U{205F}'
    || c == '\U{3000}' || c == '\U{FEFF}'
  }

  predicate IsUpperAscii(c: char) {
    'A' <= c <= 'Z'
  }

  /** `toLowerCase` on one character, restricted to the ASCII letters. */
  function ToLowerChar(c: char): (r: char)
    ensures !IsUpperAscii(r)
    ensures IsUpperAscii(c) ==> 'a' <= r <= 'z' && r as int - c as int == 'a' as int - 'A' as int
    ensures !IsUpperAscii(c) ==> r == c
  {
    if IsUpperAscii(c) then (c as int - 'A' as int + 'a' as int) as char else c
  }

  /** `toLowerCase` on a string: every upper-case ASCII letter is mapped to its lower-case form. */
  function ToLower(s: string): (r: string)
    ensures |r| == |s|
    ensures forall i :: 0 <= i < |s| ==> r[i] == ToLowerChar(s[i])
  {
    seq(|s|, i requires 0 <= i < |s| => ToLowerChar(s[i]))
  }

  /** A string without upper-case ASCII letters is its own lower-case form. */
  lemma ToLowerNoUpper(s: string)
    requires forall i :: 0 <= i < |s| ==> !IsUpperAscii(s[i])
    ensures ToLower(s) == s
  {
    assert forall i :: 0 <= i < |s| ==> ToLower(s)[i] == s[i];
  }

  /** The characters of `s` that satisfy `keep`, in order (a regex `replace(/[^…]/g, '')`). */
  function Filter(s: string, keep: char -> bool): (r: string)
    ensures |r| <= |s|
    ensures forall i :: 0 <= i < |r| ==> keep(r[i])
    ensures forall c :: c in r ==> c in s
  {
    if s == [] then []
    else if keep(s[0]) then [s[0]] + Filter(s[1..], keep)
    else Filter(s[1..], keep)
  }

  /** Each character occurs in the result as often as in `s` when kept, and not at all otherwise. */
  lemma {:induction false} FilterMultiset(s: string, keep: char -> bool)
    ensures forall c :: multiset(Filter(s, keep))[c] == if keep(c) then multiset(s)[c] else 0
  {
    if s != [] {
      FilterMultiset(s[1..], keep);
      assert s == [s[0]] + s[1..];
    }
  }

  lemma {:induction false} FilterAppend(a: string, b: string, keep: char -> bool)
    ensures Filter(a + b, keep) == Filter(a, keep) + Filter(b, keep)
  {
    if a == [] {
      assert a + b == b;
    } else {
      assert (a + b)[1..] == a[1..] + b;
      FilterAppend(a[1..], b, keep);
    }
  }

  /** Filtering a string whose every character is kept returns it unchanged. */
  lemma {:induction false} FilterKeepsAll(s: string, keep: char -> bool)
    requires forall i :: 0 <= i < |s| ==> keep(s[i])
    ensures Filter(s, keep) == s
  {
    if s != [] {
      FilterKeepsAll(s[1..], keep);
    }
  }

  /** Filtering with a finer class after a coarser one is filtering with the finer class alone. */
  lemma {:induction false} FilterOfFilter(s: string, coarse: char -> bool, fine: char -> bool)
    requires forall c :: fine(c) ==> coarse(c)
    ensures Filter(Filter(s, coarse), fine) == Filter(s, fine)
  {
    if s != [] {
      FilterOfFilter(s[1..], coarse, fine);
    }
  }

  /** Drops the leading run of characters satisfying `inRun`. */
  function DropRun(s: string, inRun: char -> bool): (r: string)
    ensures |r| <= |s| && r == s[|s| - |r|..]
    ensures forall i :: 0 <= i < |s| - |r| ==> inRun(s[i])
    ensures r != [] ==> !inRun(r[0])
  {
    if s != [] && inRun(s[0]) then DropRun(s[1..], inRun) else s
  }

  /**
   * `s.replace(/R+/g, rep)` where R is the character class `inRun`:
   * each maximal run of `inRun` characters becomes the single character `rep`.
   */
  function ReplaceRuns(s: string, inRun: char -> bool, rep: char): (r: string)
    ensures |r| <= |s|
    ensures s == [] <==> r == []
    ensures s != [] && !inRun(s[0]) ==> r[0] == s[0]
    decreases |s|
  {
    if s == [] then []
    else if inRun(s[0]) then [rep] + ReplaceRuns(DropRun(s[1..], inRun), inRun, rep)
    else [s[0]] + ReplaceRuns(s[1..], inRun, rep)
  }

  /** ReplaceRuns introduces no character other than `rep`, and keeps no run character. */
  lemma {:induction false} ReplaceRunsCharset(s: string, inRun: char -> bool, rep: char)
    ensures forall c :: c in ReplaceRuns(s, inRun, rep) ==> c == rep || (c in s && !inRun(c))
    decreases |s|
  {
    if s != [] {
      var t := if inRun(s[0]) then DropRun(s[1..], inRun) else s[1..];
      ReplaceRunsCharset(t, inRun, rep);
      assert forall c :: c in t ==> c in s by {
        forall c | c in t ensures c in s {
          var j :| 0 <= j < |t| && t[j] == c;
          assert s[|s| - |t| + j] == c;
        }
      }
    }
  }

  /** No two characters in a row satisfy `inRun`. */
  predicate NoAdjacentRuns(s: string, inRun: char -> bool) {
    forall i :: 0 <= i < |s| - 1 ==> !(inRun(s[i]) && inRun(s[i + 1]))
  }

  lemma ConsNoAdjacent(x: char, s: string, inRun: char -> bool)
    requires NoAdjacentRuns(s, inRun)
    requires s == [] || !inRun(x) || !inRun(s[0])
    ensures NoAdjacentRuns([x] + s, inRun)
  {
    var r := [x] + s;
    forall i | 0 <= i < |r| - 1
      ensures !(inRun(r[i]) && inRun(r[i + 1]))
    {
      if i > 0 {
        assert r[i] == s[i - 1] && r[i + 1] == s[i];
      }
    }
  }

  /** When `rep` is itself a run character, the result has no two run characters in a row. */
  lemma {:induction false} ReplaceRunsNoAdjacent(s: string, inRun: char -> bool, rep: char)
    requires inRun(rep)
    ensures NoAdjacentRuns(ReplaceRuns(s, inRun, rep), inRun)
    decreases |s|
  {
    if s != [] {
      if inRun(s[0]) {
        var t := DropRun(s[1..], inRun);
        ReplaceRunsNoAdjacent(t, inRun, rep);
        ConsNoAdjacent(rep, ReplaceRuns(t, inRun, rep), inRun);
      } else {
        ReplaceRunsNoAdjacent(s[1..], inRun, rep);
        ConsNoAdjacent(s[0], ReplaceRuns(s[1..], inRun, rep), inRun);
      }
    }
  }

  /** A string with no run character is left alone by ReplaceRuns. */
  lemma {:induction false} ReplaceRunsNoRun(s: string, inRun: char -> bool, rep: char)
    requires forall i :: 0 <= i < |s| ==> !inRun(s[i])
    ensures ReplaceRuns(s, inRun, rep) == s
  {
    if s != [] {
      ReplaceRunsNoRun(s[1..], inRun, rep);
    }
  }

  /**
   * A string whose runs are already single `rep` characters is a fixed point of
   * ReplaceRuns: collapsing is idempotent.
   */
  lemma {:induction false} ReplaceRunsFixpoint(s: string, inRun: char -> bool, rep: char)
    requires SingleRuns(s, inRun, rep)
    ensures ReplaceRuns(s, inRun, rep) == s
  {
    if s != [] {
      SingleRunsTail(s, inRun, rep);
      ReplaceRunsFixpoint(s[1..], inRun, rep);
      if inRun(s[0]) {
        ReplaceRunsSingle(s, inRun, rep);
        assert ReplaceRuns(s, inRun, rep) == [s[0]] + s[1..];
      } else {
        assert ReplaceRuns(s, inRun, rep) == [s[0]] + s[1..];
      }
      assert [s[0]] + s[1..] == s;
    }
  }

  /** Every run of `inRun` characters in `s` is the single character `rep`. */
  predicate SingleRuns(s: string, inRun: char -> bool, rep: char) {
    && (forall i :: 0 <= i < |s| ==> inRun(s[i]) ==> s[i] == rep)
    && NoAdjacentRuns(s, inRun)
  }

  lemma SingleRunsTail(s: string, inRun: char -> bool, rep: char)
    requires s != [] && SingleRuns(s, inRun, rep)
    ensures SingleRuns(s[1..], inRun, rep)
  {
    var t := s[1..];
    forall i | 0 <= i < |t|
      ensures inRun(t[i]) ==> t[i] == rep
    {
      assert t[i] == s[i + 1];
    }
    forall i | 0 <= i < |t| - 1
      ensures !(inRun(t[i]) && inRun(t[i + 1]))
    {
      assert t[i] == s[i + 1] && t[i + 1] == s[i + 2];
    }
  }

  /** A run of length one is replaced by `rep` and the rest is processed on its own. */
  lemma ReplaceRunsSingle(s: string, inRun: char -> bool, rep: char)
    requires s != [] && inRun(s[0]) && (|s| == 1 || !inRun(s[1]))
    ensures ReplaceRuns(s, inRun, rep) == [rep] + ReplaceRuns(s[1..], inRun, rep)
  {
    assert DropRun(s[1..], inRun) == s[1..];
  }

  /** Characters a filter discards may be dropped first without changing its result. */
  lemma {:induction false} FilterDropRun(s: string, inRun: char -> bool, keep: char -> bool)
    requires forall c :: inRun(c) ==> !keep(c)
    ensures Filter(DropRun(s, inRun), keep) == Filter(s, keep)
  {
    if s != [] && inRun(s[0]) {
      FilterDropRun(s[1..], inRun, keep);
    }
  }

  /**
   * Replacing runs of characters a filter discards, by another such character, does not
   * change what the filter keeps.
   */
  lemma {:induction false} FilterReplaceRuns(s: string, inRun: char -> bool, rep: char, keep: char -> bool)
    requires forall c :: inRun(c) ==> !keep(c)
    requires !keep(rep)
    ensures Filter(ReplaceRuns(s, inRun, rep), keep) == Filter(s, keep)
    decreases |s|
  {
    if s != [] {
      if inRun(s[0]) {
        var t := DropRun(s[1..], inRun);
        FilterReplaceRuns(t, inRun, rep, keep);
        FilterDropRun(s[1..], inRun, keep);
      } else {
        FilterReplaceRuns(s[1..], inRun, rep, keep);
      }
    }
  }

  /**
   * A string made of a run-free word, one run character and the rest: the word is kept,
   * the run becomes `rep`, and the rest is processed on its own.
   */
  lemma {:induction false} ReplaceRunsAfterWord(word: string, sep: char, rest: string,
                                                inRun: char -> bool, rep: char)
    requires forall i :: 0 <= i < |word| ==> !inRun(word[i])
    requires inRun(sep) && (rest == [] || !inRun(rest[0]))
    ensures ReplaceRuns(word + [sep] + rest, inRun, rep) == word + [rep] + ReplaceRuns(rest, inRun, rep)
  {
    if word == [] {
      assert word + [sep] + rest == [sep] + rest;
      ReplaceRunsSingle([sep] + rest, inRun, rep);
      assert ([sep] + rest)[1..] == rest;
    } else {
      var w := word[1..];
      var tail := w + [sep] + rest;
      var r := ReplaceRuns(rest, inRun, rep);
      assert word + [sep] + rest == [word[0]] + tail;
      ReplaceRunsKeep(word[0], tail, inRun, rep);
      forall i | 0 <= i < |w| ensures !inRun(w[i]) {
        assert w[i] == word[i + 1];
      }
      ReplaceRunsAfterWord(w, sep, rest, inRun, rep);
      assert ReplaceRuns(tail, inRun, rep) == w + [rep] + r;
      assert [word[0]] + (w + [rep] + r) == ([word[0]] + w) + [rep] + r;
      assert [word[0]] + w == word;
    }
  }

  /** A character outside the run class is copied and the rest is processed on its own. */
  lemma ReplaceRunsKeep(x: char, s: string, inRun: char -> bool, rep: char)
    requires !inRun(x)
    ensures ReplaceRuns([x] + s, inRun, rep) == [x] + ReplaceRuns(s, inRun, rep)
  {
    assert ([x] + s)[1..] == s;
  }

  /** Each maximal run leaves exactly one run character behind, when `rep` is one. */
  lemma {:induction false} ReplaceRunsCountsRuns(s: string, inRun: char -> bool, rep: char)
    requires inRun(rep)
    ensures |Filter(ReplaceRuns(s, inRun, rep), inRun)| == CountRuns(s, inRun)
    decreases |s|
  {
    if s != [] {
      var t := if inRun(s[0]) then DropRun(s[1..], inRun) else s[1..];
      var rt := ReplaceRuns(t, inRun, rep);
      ReplaceRunsCountsRuns(t, inRun, rep);
      var x := if inRun(s[0]) then rep else s[0];
      assert ReplaceRuns(s, inRun, rep) == [x] + rt;
      assert ([x] + rt)[1..] == rt;
    }
  }

  /** The number of maximal runs of `inRun` characters in `s`. */
  function CountRuns(s: string, inRun: char -> bool): nat
    decreases |s|
  {
    if s == [] then 0
    else if inRun(s[0]) then 1 + CountRuns(DropRun(s[1..], inRun), inRun)
    else CountRuns(s[1..], inRun)
  }

  /**
   * `s.split(/R+/)` where R is the character class `inRun`: the pieces between the
   * maximal runs, including an empty piece before a leading run and after a trailing one.
   */
  function Split(s: string, inRun: char -> bool): (parts: seq<string>)
    ensures |parts| == 1 + CountRuns(s, inRun)
    ensures forall k, i :: 0 <= k < |parts| && 0 <= i < |parts[k]| ==> !inRun(parts[k][i])
    decreases |s|
  {
    if s == [] then [[]]
    else if inRun(s[0]) then [[]] + Split(DropRun(s[1..], inRun), inRun)
    else
      var rest := Split(s[1..], inRun);
      [[s[0]] + rest[0]] + rest[1..]
  }

  /** `parts.join(sep)` for a one-character separator. */
  function Join(parts: seq<string>, sep: char): string
    requires |parts| >= 1
  {
    if |parts| == 1 then parts[0] else parts[0] + [sep] + Join(parts[1..], sep)
  }

  lemma JoinConsFirst(c: char, parts: seq<string>, sep: char)
    requires |parts| >= 1
    ensures Join([[c] + parts[0]] + parts[1..], sep) == [c] + Join(parts, sep)
  {
    var ps := [[c] + parts[0]] + parts[1..];
    if |parts| > 1 {
      assert ps[1..] == parts[1..];
    }
  }

  /** A joined string begins with its first piece. */
  lemma JoinStartsWithFirst(parts: seq<string>, sep: char)
    requires |parts| >= 1
    ensures parts[0] <= Join(parts, sep)
  {
  }

  /** Every word lower-cased. */
  function ToLowerAll(words: seq<string>): (r: seq<string>)
    ensures |r| == |words|
    ensures forall k :: 0 <= k < |words| ==> r[k] == ToLower(words[k])
  {
    seq(|words|, k requires 0 <= k < |words| => ToLower(words[k]))
  }

  lemma ToLowerAppend(a: string, b: string)
    ensures ToLower(a + b) == ToLower(a) + ToLower(b)
  {
    assert forall i :: 0 <= i < |a + b| ==> ToLower(a + b)[i] == (ToLower(a) + ToLower(b))[i];
  }

  /** Lower-casing a joined string lower-cases each piece, when the separator has no upper case. */
  lemma {:induction false} ToLowerJoin(words: seq<string>, sep: char)
    requires |words| >= 1 && !IsUpperAscii(sep)
    ensures ToLower(Join(words, sep)) == Join(ToLowerAll(words), sep)
  {
    if |words| > 1 {
      ToLowerJoin(words[1..], sep);
      ToLowerAppend(words[0] + [sep], Join(words[1..], sep));
      ToLowerAppend(words[0], [sep]);
      assert ToLower([sep]) == [sep];
      assert ToLowerAll(words)[1..] == ToLowerAll(words[1..]);
    }
  }

  /** A filter that keeps the separator and every character of every piece keeps the whole join. */
  lemma {:induction false} FilterKeepsJoin(words: seq<string>, sep: char, keep: char -> bool)
    requires |words| >= 1 && keep(sep)
    requires forall k, i :: 0 <= k < |words| && 0 <= i < |words[k]| ==> keep(words[k][i])
    ensures Filter(Join(words, sep), keep) == Join(words, sep)
  {
    FilterKeepsAll(words[0], keep);
    if |words| > 1 {
      FilterKeepsJoin(words[1..], sep, keep);
      FilterAppend(words[0] + [sep], Join(words[1..], sep), keep);
      FilterAppend(words[0], [sep], keep);
    }
  }

  /**
   * Non-empty, run-free pieces joined by single run characters: ReplaceRuns swaps each
   * separator for `rep` and nothing else.
   */
  lemma {:induction false} ReplaceRunsJoin(words: seq<string>, sep: char, inRun: char -> bool, rep: char)
    requires |words| >= 1 && inRun(sep)
    requires forall k :: 0 <= k < |words| ==> words[k] != []
    requires forall k, i :: 0 <= k < |words| && 0 <= i < |words[k]| ==> !inRun(words[k][i])
    ensures ReplaceRuns(Join(words, sep), inRun, rep) == Join(words, rep)
  {
    if |words| == 1 {
      ReplaceRunsNoRun(words[0], inRun, rep);
    } else {
      var rest := words[1..];
      ReplaceRunsJoin(rest, sep, inRun, rep);
      JoinStartsWithFirst(rest, sep);
      assert Join(rest, sep)[0] == rest[0][0];
      ReplaceRunsAfterWord(words[0], sep, Join(rest, sep), inRun, rep);
    }
  }

  /** `s.split(/R+/).join(rep)` and `s.replace(/R+/g, rep)` agree. */
  lemma {:induction false} JoinSplitIsReplaceRuns(s: string, inRun: char -> bool, rep: char)
    ensures Join(Split(s, inRun), rep) == ReplaceRuns(s, inRun, rep)
    decreases |s|
  {
    if s != [] {
      if inRun(s[0]) {
        var t := DropRun(s[1..], inRun);
        JoinSplitIsReplaceRuns(t, inRun, rep);
        assert ([[]] + Split(t, inRun))[1..] == Split(t, inRun);
      } else {
        JoinSplitIsReplaceRuns(s[1..], inRun, rep);
        JoinConsFirst(s[0], Split(s[1..], inRun), rep);
      }
    }
  }

  /** `s.split(c)` for a one-character string separator: every occurrence separates. */
  function SplitOnChar(s: string, c: char): (parts: seq<string>)
    ensures |parts| >= 1
    ensures forall k :: 0 <= k < |parts| ==> c !in parts[k]
  {
    if s == [] then [[]]
    else if s[0] == c then [[]] + SplitOnChar(s[1..], c)
    else
      var rest := SplitOnChar(s[1..], c);
      [[s[0]] + rest[0]] + rest[1..]
  }

  /** Splitting on a character and joining with it again gives the original string. */
  lemma {:induction false} JoinSplitOnChar(s: string, c: char)
    ensures Join(SplitOnChar(s, c), c) == s
  {
    if s != [] {
      JoinSplitOnChar(s[1..], c);
      if s[0] == c {
        assert ([[]] + SplitOnChar(s[1..], c))[1..] == SplitOnChar(s[1..], c);
      } else {
        JoinConsFirst(s[0], SplitOnChar(s[1..], c), c);
      }
    }
  }

  /** The first piece ends at the first separator: `(a + c + b).split(c)` is `[a]` followed by `b.split(c)`. */
  lemma {:induction false} SplitOnCharAtFirst(a: string, c: char, b: string)
    requires c !in a
    ensures SplitOnChar(a + [c] + b, c) == [a] + SplitOnChar(b, c)
  {
    if a == [] {
      assert a + [c] + b == [c] + b;
      assert ([c] + b)[1..] == b;
    } else {
      assert (a + [c] + b)[1..] == a[1..] + [c] + b;
      SplitOnCharAtFirst(a[1..], c, b);
      assert [a[0]] + a[1..] == a;
    }
  }

  /** A string without the separator splits into itself alone. */
  lemma {:induction false} SplitOnCharAbsent(s: string, c: char)
    requires c !in s
    ensures SplitOnChar(s, c) == [s]
  {
    if s != [] {
      SplitOnCharAbsent(s[1..], c);
      assert [s[0]] + s[1..] == s;
    }
  }

  /** There is more than one piece exactly when the separator occurs. */
  lemma SplitOnCharSeparates(s: string, c: char)
    ensures |SplitOnChar(s, c)| >= 2 <==> c in s
  {
    if c in s {
      JoinSplitOnChar(s, c);
    } else {
      SplitOnCharAbsent(s, c);
    }
  }

  /** The first piece is the text before the first separator, or the whole string when there is none. */
  lemma {:induction false} SplitOnCharFirstPiece(s: string, c: char)
    ensures var p := SplitOnChar(s, c)[0];
            p <= s && (|p| == |s| || s[|p|] == c)
  {
    if s != [] && s[0] != c {
      SplitOnCharFirstPiece(s[1..], c);
    }
  }

  /** `s.indexOf(c)`, with `|s|` standing for "not found". */
  function IndexOf(s: string, c: char): (i: nat)
    ensures i <= |s|
    ensures c !in s[..i]
    ensures i < |s| <==> c in s
    ensures i < |s| ==> s[i] == c
  {
    if s == [] then 0
    else if s[0] == c then 0
    else
      var j := IndexOf(s[1..], c);
      assert s[..j + 1] == [s[0]] + s[1..][..j];
      j + 1
  }

  /**
   * The second piece is the text that follows the first separator, up to the next
   * separator or the end.
   */
  lemma {:induction false} SplitOnCharSecondPiece(s: string, c: char)
    requires c in s
    ensures |SplitOnChar(s, c)| >= 2
    ensures var rest := s[IndexOf(s, c) + 1..];
            var p := SplitOnChar(s, c)[1];
            p <= rest && (|p| == |rest| || rest[|p|] == c)
  {
    SplitOnCharSeparates(s, c);
    if s[0] == c {
      SplitOnCharFirstPiece(s[1..], c);
    } else {
      SplitOnCharSecondPiece(s[1..], c);
      assert s[IndexOf(s, c) + 1..] == s[1..][IndexOf(s[1..], c) + 1..];
    }
  }

  /** Drops trailing characters satisfying `p`. */
  function DropRunAtEnd(s: string, p: char -> bool): (r: string)
    ensures |r| <= |s| && r == s[..|r|]
    ensures r != [] ==> !p(r[|r| - 1])
    ensures forall i :: |r| <= i < |s| ==> p(s[i])
  {
    if s != [] && p(s[|s| - 1]) then DropRunAtEnd(s[..|s| - 1], p) else s
  }

  /** `String.prototype.trim`: strips JavaScript whitespace from both ends. */
  function Trim(s: string): (r: string)
    ensures |r| <= |s|
    ensures r != [] ==> !IsJsSpace(r[0]) && !IsJsSpace(r[|r| - 1])
    ensures var i := |s| - |DropRun(s, IsJsSpace)|;
            && i + |r| <= |s|
            && r == s[i..i + |r|]
            && (forall k :: 0 <= k < i || i + |r| <= k < |s| ==> IsJsSpace(s[k]))
  {
    DropRunAtEnd(DropRun(s, IsJsSpace), IsJsSpace)
  }

  /** Trimming a string that holds no whitespace changes nothing. */
  lemma TrimNoSpace(s: string)
    requires forall i :: 0 <= i < |s| ==> !IsJsSpace(s[i])
    ensures Trim(s) == s
  {
    assert DropRun(s, IsJsSpace) == s;
  }
}
