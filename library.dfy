/** The word list the game accepts guesses from: each downloaded dictionary
    file is cut into lines, every line loses its annotations, the entries of
    the right length without apostrophe or hyphen are kept, and the lists of
    all files are concatenated and sorted (index.js, lines 67-71). Fetching,
    caching and the asynchronous plumbing are left out: the downloaded texts
    are the parameter `sources`. */
module Library {
  import opened Text

  /** WORDS_LENGTH. */
  const WordsLength := 5

  datatype Option<T> = None | Some(value: T)

  /** The first line terminator at or after `q`, or the end of `s`. */
  function LineEnd(s: string, q: nat): (r: nat)
    requires q <= |s|
    ensures q <= r <= |s|
    ensures r == |s| || IsLineTerminator(s[r])
    ensures forall k :: q <= k < r ==> !IsLineTerminator(s[k])
    decreases |s| - q
  {
    if q == |s| || IsLineTerminator(s[q]) then q else LineEnd(s, q + 1)
  }

  /** Where a match of the regular expression `#|\s.+` that starts at `p`
      ends: a `#` alone, or a white space character followed by the longest
      non-empty run of characters other than line terminators. */
  function MatchAt(s: string, p: nat): (r: Option<nat>)
    requires p < |s|
    ensures r.Some? ==> p < r.value <= |s|
    ensures r.Some? <==> s[p] == '#' || (IsSpace(s[p]) && p + 1 < |s| && !IsLineTerminator(s[p + 1]))
  {
    if s[p] == '#' then Some(p + 1)
    else if IsSpace(s[p]) && p + 1 < |s| && !IsLineTerminator(s[p + 1]) then Some(LineEnd(s, p + 1))
    else None
  }

  /** Removes the leftmost match found at `p` or later, if any. */
  function ReplaceFrom(s: string, p: nat): (r: string)
    requires p <= |s|
    ensures |r| <= |s|
    decreases |s| - p
  {
    if p == |s| then s
    else match MatchAt(s, p)
      case Some(e) => s[..p] + s[e..]
      case None => ReplaceFrom(s, p + 1)
  }

  /** `s.replace(/\#|\s.+/, '')`: the first match only is removed. */
  function StripEntry(s: string): (r: string)
    ensures |r| <= |s|
  {
    ReplaceFrom(s, 0)
  }

  /** The search from `p` either changes nothing or cuts out one block that
      starts with `#` or white space at or after `p`. */
  lemma {:induction false} ReplaceFromCuts(s: string, p: nat)
    requires p <= |s|
    ensures ReplaceFrom(s, p) == s ||
      exists q, e :: p <= q < e <= |s| &&
        (s[q] == '#' || IsSpace(s[q])) && ReplaceFrom(s, p) == s[..q] + s[e..]
    decreases |s| - p
  {
    if p < |s| && MatchAt(s, p).None? {
      ReplaceFromCuts(s, p + 1);
    }
  }

  /** `replace` either leaves an entry as it is or cuts out one block that
      starts with `#` or white space. */
  lemma StripEntryCuts(s: string)
    ensures StripEntry(s) == s ||
      exists q, e :: 0 <= q < e <= |s| &&
        (s[q] == '#' || IsSpace(s[q])) && StripEntry(s) == s[..q] + s[e..]
  {
    ReplaceFromCuts(s, 0);
  }

  /** No match can start anywhere in `s[p..q]`, so the search goes on at `q`. */
  lemma {:induction false} ReplaceSkips(s: string, p: nat, q: nat)
    requires p <= q <= |s|
    requires forall k :: p <= k < q ==> s[k] != '#' && !IsSpace(s[k])
    ensures ReplaceFrom(s, p) == ReplaceFrom(s, q)
    decreases q - p
  {
    if p < q {
      ReplaceSkips(s, p + 1, q);
    }
  }

  /** White space followed by the rest of a single line is cut off entirely. */
  lemma CutToEnd(s: string, p: nat)
    requires p + 1 < |s| && IsSpace(s[p])
    requires forall k :: p + 1 <= k < |s| ==> !IsLineTerminator(s[k])
    ensures ReplaceFrom(s, p) == s[..p]
  {
    assert LineEnd(s, p + 1) == |s|;
    assert s[|s|..] == [];
  }

  /** A dictionary line `word /tags ...` keeps the word alone: everything from
      the first white space on is dropped. */
  lemma StripAnnotated(w: string, sp: char, tags: string)
    requires forall k :: 0 <= k < |w| ==> w[k] != '#' && !IsSpace(w[k])
    requires IsSpace(sp) && !IsLineTerminator(sp)
    requires |tags| > 0 && forall k :: 0 <= k < |tags| ==> !IsLineTerminator(tags[k])
    ensures StripEntry(w + [sp] + tags) == w
  {
    var s := w + [sp] + tags;
    assert forall k :: 0 <= k < |w| ==> s[k] == w[k];
    ReplaceSkips(s, 0, |w|);
    assert forall k :: |w| + 1 <= k < |s| ==> s[k] == tags[k - |w| - 1];
    CutToEnd(s, |w|);
    assert s[..|w|] == w;
  }

  /** A bare word without `#` or white space is kept as it is. */
  lemma StripBare(w: string)
    requires forall k :: 0 <= k < |w| ==> w[k] != '#' && !IsSpace(w[k])
    ensures StripEntry(w) == w
  {
    ReplaceSkips(w, 0, |w|);
  }

  /** `\s.+` needs a character after the white space, so one trailing white
      space character survives: a four-letter word followed by a blank passes
      the filter as a five-character entry. */
  lemma StripTrailingSpace(w: string, sp: char)
    requires forall k :: 0 <= k < |w| ==> w[k] != '#' && !IsSpace(w[k])
    requires IsSpace(sp) && |w| == WordsLength - 1 && '\'' !in w && '-' !in w
    ensures StripEntry(w + [sp]) == w + [sp]
    ensures Keep(w + [sp])
  {
    ReplaceSkips(w + [sp], 0, |w|);
    assert MatchAt(w + [sp], |w|).None?;
    assert ReplaceFrom(w + [sp], |w| + 1) == w + [sp];
  }

  /** Only the first `#` goes: after a bare word `w`, the `#` is removed and
      whatever follows it, later `#`s included, is kept. */
  lemma StripFirstHash(w: string, v: string)
    requires forall k :: 0 <= k < |w| ==> w[k] != '#' && !IsSpace(w[k])
    ensures StripEntry(w + ['#'] + v) == w + v
  {
    var s := w + ['#'] + v;
    ReplaceSkips(s, 0, |w|);
    assert s[|w|] == '#';
    assert s[..|w|] == w && s[|w| + 1..] == v;
  }

  /** The filter of line 69: exactly WORDS_LENGTH characters, no `'`, no `-`. */
  predicate Keep(w: string) {
    |w| == WordsLength && '\'' !in w && '-' !in w
  }

  /** Map every line through `StripEntry`, then keep what passes `Keep`. */
  function Kept(lines: seq<string>): (r: seq<string>)
    ensures |r| <= |lines|
    ensures forall w :: w in r ==> Keep(w)
  {
    if lines == [] then []
    else
      var w := StripEntry(lines[0]);
      (if Keep(w) then [w] else []) + Kept(lines[1..])
  }

  /** A word survives exactly when some line strips to it and it passes `Keep`. */
  lemma {:induction false} KeptMembers(lines: seq<string>, w: string)
    ensures w in Kept(lines) <==> Keep(w) && exists i :: 0 <= i < |lines| && StripEntry(lines[i]) == w
  {
    if lines != [] {
      KeptMembers(lines[1..], w);
      if w in Kept(lines[1..]) {
        var i :| 0 <= i < |lines[1..]| && StripEntry(lines[1..][i]) == w;
        assert StripEntry(lines[i + 1]) == w;
      }
      if Keep(w) && StripEntry(lines[0]) != w {
        if exists i :: 0 <= i < |lines| && StripEntry(lines[i]) == w {
          var i :| 0 <= i < |lines| && StripEntry(lines[i]) == w;
          assert i > 0 && StripEntry(lines[1..][i - 1]) == w;
        }
      }
    }
  }

  /** The entries one downloaded file contributes. */
  function Words(data: string): (r: seq<string>)
    ensures forall w :: w in r ==> Keep(w)
  {
    Kept(Split(data, '\n'))
  }

  /** `Array.prototype.flat` on a list of lists. */
  function Flatten(groups: seq<seq<string>>): (r: seq<string>)
    ensures forall w :: w in r <==> exists i :: 0 <= i < |groups| && w in groups[i]
  {
    if groups == [] then []
    else
      assert forall i :: 1 <= i < |groups| ==> groups[1..][i - 1] == groups[i];
      groups[0] + Flatten(groups[1..])
  }

  /** `a <= b` between JavaScript strings: the first differing character
      decides, and a proper prefix comes first. */
  predicate LexLeq(a: string, b: string) {
    if a == [] then true
    else if b == [] then false
    else if a[0] != b[0] then a[0] < b[0]
    else LexLeq(a[1..], b[1..])
  }

  lemma {:induction false} LexTotal(a: string, b: string)
    ensures LexLeq(a, b) || LexLeq(b, a)
  {
    if a != [] && b != [] && a[0] == b[0] {
      LexTotal(a[1..], b[1..]);
    }
  }

  lemma {:induction false} LexTransitive(a: string, b: string, c: string)
    requires LexLeq(a, b) && LexLeq(b, c)
    ensures LexLeq(a, c)
  {
    if a != [] && b != [] && c != [] && a[0] == b[0] && b[0] == c[0] {
      LexTransitive(a[1..], b[1..], c[1..]);
    }
  }

  lemma {:induction false} LexAntisymmetric(a: string, b: string)
    requires LexLeq(a, b) && LexLeq(b, a)
    ensures a == b
  {
    if a != [] && b != [] {
      LexAntisymmetric(a[1..], b[1..]);
    }
  }

  /** Each entry is at most the next one. */
  ghost predicate Sorted(s: seq<string>) {
    forall i :: 0 <= i < |s| - 1 ==> LexLeq(s[i], s[i + 1])
  }

  /** Puts `x` in its place in a sorted list. */
  function Insert(x: string, s: seq<string>): (r: seq<string>)
    requires Sorted(s)
    ensures Sorted(r)
    ensures multiset(r) == multiset(s) + multiset{x}
    ensures |r| == |s| + 1 && (r[0] == x || (|s| > 0 && r[0] == s[0]))
  {
    if s == [] then [x]
    else if LexLeq(x, s[0]) then [x] + s
    else
      LexTotal(x, s[0]);
      var t := Insert(x, s[1..]);
      assert s == [s[0]] + s[1..];
      [s[0]] + t
  }

  /** The default `Array.prototype.sort` of strings, as an insertion sort. */
  function Sort(s: seq<string>): (r: seq<string>)
    ensures Sorted(r)
    ensures multiset(r) == multiset(s)
  {
    if s == [] then []
    else
      assert s == [s[0]] + s[1..];
      Insert(s[0], Sort(s[1..]))
  }

  /** Adjacent order gives order between any two entries. */
  lemma {:induction false} SortedPairwise(s: seq<string>, i: nat, j: nat)
    requires Sorted(s) && i <= j < |s|
    ensures LexLeq(s[i], s[j])
    decreases j - i
  {
    if i == j {
      LexReflexive(s[i]);
    } else {
      SortedPairwise(s, i + 1, j);
      LexTransitive(s[i], s[i + 1], s[j]);
    }
  }

  lemma {:induction false} LexReflexive(a: string)
    ensures LexLeq(a, a)
  {
    if a != [] {
      LexReflexive(a[1..]);
    }
  }

  /** The kept entries of each downloaded file, in file order. */
  function Groups(sources: seq<string>): (r: seq<seq<string>>)
    ensures |r| == |sources|
    ensures forall i :: 0 <= i < |r| ==> forall w :: w in r[i] ==> Keep(w)
  {
    seq(|sources|, i requires 0 <= i < |sources| => Words(sources[i]))
  }

  /** The whole library of `loadLibrary`: the kept entries of every file,
      concatenated in file order and sorted. Duplicates are not removed. */
  function LoadLibrary(sources: seq<string>): (r: seq<string>)
    ensures Sorted(r)
    ensures forall w :: w in r ==> Keep(w)
    ensures multiset(r) == multiset(Flatten(Groups(sources)))
  {
    var all := Flatten(Groups(sources));
    var r := Sort(all);
    assert forall w :: w in r ==> w in all by {
      forall w | w in r ensures w in all {
        assert w in multiset(r);
      }
    }
    r
  }

  /** One of `lines` strips to `w`. */
  ghost predicate SomeLineStripsTo(lines: seq<string>, w: string) {
    exists j :: 0 <= j < |lines| && StripEntry(lines[j]) == w
  }

  /** A word is in the library exactly when it passes the filter and some
      line of one of the files strips to it. */
  lemma LibraryMembers(sources: seq<string>, w: string)
    ensures w in LoadLibrary(sources) <==>
      Keep(w) && exists i :: 0 <= i < |sources| && SomeLineStripsTo(Split(sources[i], '\n'), w)
  {
    var groups := Groups(sources);
    var all := Flatten(groups);
    var r := LoadLibrary(sources);
    assert w in r <==> w in all by {
      assert w in r <==> w in multiset(r);
      assert w in all <==> w in multiset(all);
    }
    if w in all {
      var i :| 0 <= i < |groups| && w in groups[i];
      KeptMembers(Split(sources[i], '\n'), w);
    }
    if Keep(w) && exists i :: 0 <= i < |sources| && SomeLineStripsTo(Split(sources[i], '\n'), w) {
      var i :| 0 <= i < |sources| && SomeLineStripsTo(Split(sources[i], '\n'), w);
      KeptMembers(Split(sources[i], '\n'), w);
      assert w in groups[i];
    }
  }

  /** The sort leaves no choice: any sorted permutation of the input is the
      sorted list, so equal words in any order sort alike. */
  lemma {:induction false} SortUnique(s: seq<string>, t: seq<string>)
    requires Sorted(t) && multiset(t) == multiset(s)
    ensures t == Sort(s)
  {
    SortedEqual(t, Sort(s));
  }

  /** Two sorted lists with the same entries are the same list. */
  lemma {:induction false} SortedEqual(a: seq<string>, b: seq<string>)
    requires Sorted(a) && Sorted(b) && multiset(a) == multiset(b)
    ensures a == b
    decreases |a|
  {
    if a != [] {
      assert a[0] in multiset(a);
      assert a[0] in b;
      assert b[0] in multiset(b);
      assert b[0] in a;
      SortedHeadLeast(a, b[0]);
      SortedHeadLeast(b, a[0]);
      LexAntisymmetric(a[0], b[0]);
      SortedTail(a);
      SortedTail(b);
      SortedEqual(a[1..], b[1..]);
    }
  }

  /** The head of a sorted list is at most any of its entries. */
  lemma SortedHeadLeast(a: seq<string>, x: string)
    requires Sorted(a) && x in a
    ensures LexLeq(a[0], x)
  {
    var i :| 0 <= i < |a| && a[i] == x;
    SortedPairwise(a, 0, i);
  }

  /** Dropping the head of a sorted list leaves a sorted list of the other entries. */
  lemma SortedTail(a: seq<string>)
    requires Sorted(a) && a != []
    ensures Sorted(a[1..])
    ensures multiset(a[1..]) == multiset(a) - multiset{a[0]}
  {
    assert a == [a[0]] + a[1..];
  }
}
