/** String primitives with JavaScript semantics that the addon's handlers
    rely on: substring search (`indexOf`), `String.prototype.split` with a
    non-empty separator, `String.prototype.replace` with a string pattern
    and a replacement free of `$` substitution patterns (first occurrence
    only) and `toLowerCase` on ASCII letters. */
module Text {
  import opened Wrappers

  /** `pat` occurs in `s` starting at index `i`. */
  predicate OccursAt(s: string, pat: string, i: int) {
    0 <= i && i + |pat| <= |s| && s[i..i + |pat|] == pat
  }

  predicate Contains(s: string, pat: string) {
    exists i :: 0 <= i <= |s| && OccursAt(s, pat, i)
  }

  /** No character of `s` equals `c`. */
  predicate Lacks(s: string, c: char) {
    forall k :: 0 <= k < |s| ==> s[k] != c
  }

  /** The first occurrence of `pat` in `s` at or after `from`. */
  function IndexOf(s: string, pat: string, from: nat): (r: Option<nat>)
    ensures r.Some? ==> from <= r.value && OccursAt(s, pat, r.value)
    ensures r.Some? ==> forall j :: from <= j < r.value ==> !OccursAt(s, pat, j)
    ensures r.None? ==> forall j :: from <= j ==> !OccursAt(s, pat, j)
    decreases |s| - from
  {
    if from + |pat| > |s| then None
    else if s[from..from + |pat|] == pat then Some(from)
    else IndexOf(s, pat, from + 1)
  }

  /** `s.split(sep)` for a non-empty separator: the pieces between
      successive non-overlapping occurrences of `sep`, scanning left to
      right. There is always at least one piece. */
  function Split(s: string, sep: string): (r: seq<string>)
    requires |sep| > 0
    ensures |r| >= 1
    ensures forall k :: 0 <= k < |r| ==> !Contains(r[k], sep)
    ensures !Contains(s, sep) ==> r == [s]
    ensures Contains(s, sep) ==> |r| >= 2
    decreases |s|
  {
    match IndexOf(s, sep, 0)
    case None => [s]
    case Some(i) =>
      var head := s[..i];
      assert !Contains(head, sep) by {
        forall j | OccursAt(head, sep, j) ensures false {
          assert s[j..j + |sep|] == head[j..j + |sep|];
          assert OccursAt(s, sep, j);
        }
      }
      [head] + Split(s[i + |sep|..], sep)
  }

  /** `pieces.join(sep)`. */
  function Join(pieces: seq<string>, sep: string): string
    requires |pieces| >= 1
  {
    if |pieces| == 1 then pieces[0] else pieces[0] + sep + Join(pieces[1..], sep)
  }

  /** Joining the pieces of a split with the same separator gives back the
      original string: `split` loses nothing but the separators. */
  lemma {:induction false} JoinSplit(s: string, sep: string)
    requires |sep| > 0
    ensures Join(Split(s, sep), sep) == s
    decreases |s|
  {
    match IndexOf(s, sep, 0)
    case None =>
    case Some(i) =>
      var rest := s[i + |sep|..];
      SplitUnfold(s, sep, i);
      JoinCons(s[..i], Split(rest, sep), sep);
      JoinSplit(rest, sep);
      assert s == s[..i] + sep + rest by {
        assert s[i..i + |sep|] == sep;
        assert s == s[..i] + s[i..i + |sep|] + rest;
      }
  }

  /** Split unfolds at the first separator. */
  lemma SplitUnfold(s: string, sep: string, i: nat)
    requires |sep| > 0 && IndexOf(s, sep, 0) == Some(i)
    ensures Split(s, sep) == [s[..i]] + Split(s[i + |sep|..], sep)
  {
    match IndexOf(s, sep, 0)
    case Some(j) =>
      assert j == i;
  }

  /** Joining a piece in front of at least one more piece. */
  lemma JoinCons(head: string, tail: seq<string>, sep: string)
    requires |tail| >= 1
    ensures Join([head] + tail, sep) == head + sep + Join(tail, sep)
  {
    assert ([head] + tail)[1..] == tail;
  }

  /** Splitting a string that is a separator-free piece, the separator and
      a remainder yields that piece followed by the split of the remainder. */
  lemma SplitAtFirst(head: string, sep: string, rest: string)
    requires |sep| > 0
    requires IndexOf(head + sep + rest, sep, 0) == Some(|head|)
    ensures Split(head + sep + rest, sep) == [head] + Split(rest, sep)
  {
    var s := head + sep + rest;
    assert s[..|head|] == head;
    assert s[|head| + |sep|..] == rest;
  }

  /** `s.replace(pat, rep)` with a string pattern: only the first
      occurrence is replaced; without an occurrence `s` is returned. A
      replacement holding `$` would have its `$&`, `$$`, `` $` `` and `$'`
      patterns expanded, so it is excluded; the addon passes `""`. */
  function ReplaceFirst(s: string, pat: string, rep: string): (r: string)
    requires Lacks(rep, '$')
    ensures !Contains(s, pat) ==> r == s
    ensures forall i :: OccursAt(s, pat, i) && (forall j :: 0 <= j < i ==> !OccursAt(s, pat, j)) ==>
      r == s[..i] + rep + s[i + |pat|..]
  {
    match IndexOf(s, pat, 0)
    case None => s
    case Some(i) => s[..i] + rep + s[i + |pat|..]
  }

  /** Replacing a prefix pattern removes exactly that prefix. */
  lemma ReplaceLeadingPattern(pat: string, rest: string)
    ensures ReplaceFirst(pat + rest, pat, "") == rest
  {
    var s := pat + rest;
    assert OccursAt(s, pat, 0) by { assert s[..|pat|] == pat; }
    assert s[|pat|..] == rest;
  }

  predicate IsUpperAscii(c: char) {
    'A' <= c <= 'Z'
  }

  /** `toLowerCase` restricted to ASCII: A-Z map to a-z, every other
      character is unchanged. */
  function LowerChar(c: char): (r: char)
    ensures !IsUpperAscii(r)
    ensures !IsUpperAscii(c) ==> r == c
    ensures IsUpperAscii(c) ==> r as int == c as int + 32
  {
    if IsUpperAscii(c) then (c as int + 32) as char else c
  }

  function Lower(s: string): (r: string)
    ensures |r| == |s|
    ensures forall k :: 0 <= k < |s| ==> r[k] == LowerChar(s[k])
  {
    seq(|s|, k requires 0 <= k < |s| => LowerChar(s[k]))
  }

  /** Lowering is idempotent and leaves every character that is not an
      upper-case ASCII letter where it was. */
  lemma LowerIdempotent(s: string)
    ensures Lower(Lower(s)) == Lower(s)
  {
    var l := Lower(s);
    assert forall k :: 0 <= k < |l| ==> LowerChar(l[k]) == l[k];
  }

  /** For a one-character pattern, containment is the presence of that
      character. */
  lemma ContainsChar(s: string, c: char)
    ensures Contains(s, [c]) <==> !Lacks(s, c)
  {
    if !Lacks(s, c) {
      var k :| 0 <= k < |s| && s[k] == c;
      assert OccursAt(s, [c], k);
    }
    if Contains(s, [c]) {
      var i :| 0 <= i <= |s| && OccursAt(s, [c], i);
      assert s[i] == s[i..i + 1][0] == c;
    }
  }

  /** The first occurrence of a character is found right after a prefix
      that lacks it. */
  lemma IndexOfFirstChar(head: string, c: char, rest: string)
    requires Lacks(head, c)
    ensures IndexOf(head + [c] + rest, [c], 0) == Some(|head|)
  {
    var s := head + [c] + rest;
    assert OccursAt(s, [c], |head|) by { assert s[|head|..|head| + 1] == [c]; }
    forall j | 0 <= j < |head| ensures !OccursAt(s, [c], j) {
      assert s[j..j + 1][0] == s[j] == head[j];
    }
  }
}
