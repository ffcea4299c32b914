/** Character filters applied to the token source when a formatter is built
    (bfformatter.py lines 26 and 30): dropping line breaks from a source file
    and stripping every character other than the eight Brainfuck commands
    and `^`. */
module Normalise {

  /** `sub` can be obtained from `t` by deleting characters. */
  ghost predicate IsSubsequence(sub: string, t: string)
    decreases |t|
  {
    sub == [] ||
    (t != [] &&
     ((sub[0] == t[0] && IsSubsequence(sub[1..], t[1..])) || IsSubsequence(sub, t[1..])))
  }

  /** Every string is a subsequence of itself. */
  lemma {:induction false} SubsequenceReflexive(t: string)
    ensures IsSubsequence(t, t)
    decreases |t|
  {
    if t != [] {
      SubsequenceReflexive(t[1..]);
    }
  }

  /** Keeps the characters of `t` that satisfy `keep`, in their order. */
  function Filter(t: string, keep: char -> bool): (r: string)
    ensures forall i :: 0 <= i < |r| ==> keep(r[i])
    ensures forall ch :: keep(ch) ==> multiset(r)[ch] == multiset(t)[ch]
    ensures IsSubsequence(r, t)
    decreases |t|
  {
    if t == [] then []
    else
      assert t == [t[0]] + t[1..];
      var rest := Filter(t[1..], keep);
      if keep(t[0]) then
        assert ([t[0]] + rest)[1..] == rest;
        [t[0]] + rest
      else
        rest
  }

  /** A subsequence never holds a character more often than the sequence it
      comes from. */
  lemma {:induction false} SubsequenceCounts(sub: string, t: string)
    requires IsSubsequence(sub, t)
    ensures multiset(sub) <= multiset(t)
    decreases |t|
  {
    if sub != [] {
      assert t == [t[0]] + t[1..];
      if sub[0] == t[0] && IsSubsequence(sub[1..], t[1..]) {
        assert sub == [sub[0]] + sub[1..];
        SubsequenceCounts(sub[1..], t[1..]);
      } else {
        SubsequenceCounts(sub, t[1..]);
      }
    }
  }

  /** A subsequence of a subsequence is a subsequence. */
  lemma {:induction false} SubsequenceTransitive(a: string, b: string, c: string)
    requires IsSubsequence(a, b) && IsSubsequence(b, c)
    ensures IsSubsequence(a, c)
    decreases |c|
  {
    if a != [] {
      if b[0] == c[0] && IsSubsequence(b[1..], c[1..]) {
        if a[0] == b[0] && IsSubsequence(a[1..], b[1..]) {
          SubsequenceTransitive(a[1..], b[1..], c[1..]);
        } else {
          SubsequenceTransitive(a, b[1..], c[1..]);
        }
      } else {
        SubsequenceTransitive(a, b, c[1..]);
      }
    }
  }

  /** The three promises of `Filter` pin its result down: any `r` that is a
      subsequence of `t`, holds only kept characters and holds every kept
      character as often as `t` does, is the filtered string. */
  lemma {:induction false} FilterUnique(t: string, keep: char -> bool, r: string)
    requires IsSubsequence(r, t)
    requires forall i :: 0 <= i < |r| ==> keep(r[i])
    requires forall ch :: keep(ch) ==> multiset(r)[ch] == multiset(t)[ch]
    ensures r == Filter(t, keep)
    decreases |t|
  {
    if t == [] {
      assert r == [];
    } else {
      assert t == [t[0]] + t[1..];
      if keep(t[0]) {
        assert multiset(r)[t[0]] == multiset(t)[t[0]] > multiset(t[1..])[t[0]];
        if !(r != [] && r[0] == t[0] && IsSubsequence(r[1..], t[1..])) {
          SubsequenceCounts(r, t[1..]);
          assert false;
        }
        assert r == [r[0]] + r[1..];
        forall ch | keep(ch)
          ensures multiset(r[1..])[ch] == multiset(t[1..])[ch]
        {
        }
        FilterUnique(t[1..], keep, r[1..]);
      } else {
        assert IsSubsequence(r, t[1..]) by {
          if r != [] {
            assert keep(r[0]);
          }
        }
        FilterUnique(t[1..], keep, r);
      }
    }
  }

  /** Filtering a string whose characters are all kept changes nothing. */
  lemma {:induction false} FilterKeepsAllKept(t: string, keep: char -> bool)
    requires forall i :: 0 <= i < |t| ==> keep(t[i])
    ensures Filter(t, keep) == t
    decreases |t|
  {
    if t != [] {
      assert keep(t[0]);
      FilterKeepsAllKept(t[1..], keep);
    }
  }

  /** Filtering twice with the same predicate is filtering once. */
  lemma FilterIdempotent(t: string, keep: char -> bool)
    ensures Filter(Filter(t, keep), keep) == Filter(t, keep)
  {
    FilterKeepsAllKept(Filter(t, keep), keep);
  }

  /** The characters `strip_comments` keeps. The regular expression at line 30
      is one negated class in which every `^` after the first is a literal, so
      `^` is kept along with the eight Brainfuck commands. */
  predicate IsCodeChar(ch: char)
    ensures IsCodeChar(ch) <==> ch in "[]<>.,+-" || ch == '^'
    ensures IsCodeChar(ch) ==> ch != '\n' && ch != ' '
  {
    ch in "[]<>.,+-^"
  }

  /** Comment stripping (line 30). */
  function StripComments(t: string): (r: string)
    ensures forall i :: 0 <= i < |r| ==> IsCodeChar(r[i])
    ensures forall ch :: IsCodeChar(ch) ==> multiset(r)[ch] == multiset(t)[ch]
    ensures IsSubsequence(r, t)
  {
    Filter(t, IsCodeChar)
  }

  /** Stripping an already stripped source changes nothing. */
  lemma StripCommentsIdempotent(t: string)
    ensures StripComments(StripComments(t)) == StripComments(t)
  {
    FilterIdempotent(t, IsCodeChar);
  }

  /** Stripping works character by character: a leading character is kept
      exactly when it is a command or `^`. */
  lemma StripCommentsCons(ch: char, t: string)
    ensures StripComments([ch] + t)
            == if IsCodeChar(ch) then [ch] + StripComments(t) else StripComments(t)
  {
    assert ([ch] + t)[1..] == t;
  }

  /** Stripping distributes over concatenation: a negated character class
      decides each character on its own, so the text can be stripped in
      pieces. */
  lemma {:induction false} StripCommentsAppend(a: string, b: string)
    ensures StripComments(a + b) == StripComments(a) + StripComments(b)
    decreases |a|
  {
    if a != [] {
      assert a + b == [a[0]] + (a[1..] + b);
      assert a == [a[0]] + a[1..];
      StripCommentsCons(a[0], a[1..] + b);
      StripCommentsCons(a[0], a[1..]);
      StripCommentsAppend(a[1..], b);
    } else {
      assert a + b == b;
    }
  }

  /** `^` survives stripping although the docstring at line 19 leaves it
      out; a line break does not. */
  lemma StripCommentsKeepsCaret(t: string)
    ensures StripComments(['^'] + t) == ['^'] + StripComments(t)
    ensures StripComments(['\n'] + t) == StripComments(t)
  {
    assert IsCodeChar('^');
    StripCommentsCons('^', t);
    StripCommentsCons('\n', t);
  }

  predicate NotNewline(ch: char)
  {
    ch != '\n'
  }

  /** The newline removal applied to a source file's contents (line 26):
      line breaks are deleted, not replaced, and nothing else changes. */
  function RemoveNewlines(t: string): (r: string)
    ensures '\n' !in r
    ensures forall ch :: ch != '\n' ==> multiset(r)[ch] == multiset(t)[ch]
    ensures IsSubsequence(r, t)
  {
    Filter(t, NotNewline)
  }
}
