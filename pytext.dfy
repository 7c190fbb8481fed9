/**
 * The Python `str` built-ins that the data preparation step relies on,
 * over `seq<char>`: `str.isspace`, `str.isalnum`, `str.lower`, the `in`
 * operator, `str.split(sep)`, `str.split()`, `sep.join` and `str.strip()`.
 * `IndexOf` is the substring search that both `in` and `split(sep)` perform.
 */
module PyText {

  datatype Option<T> = None | Some(value: T)

  /** `str.isspace` for one character: what `str.split()` and `str.strip()` treat as whitespace. */
  predicate IsSpace(c: char) {
    || c == ' '
    || ('\U{0009}' <= c <= '\U{000D}')
    || ('\U{001C}' <= c <= '\U{001F}')
    || c == '\U{0085}' || c == '\U{00A0}' || c == '\U{1680}'
    || ('\U{2000}' <= c <= '\U{200A}')
    || c == '\U{2028}' || c == '\U{2029}' || c == '\U{202F}' || c == '\U{205F}' || c == '\U{3000}'
  }

  /** `str.isalnum` for one character, restricted to ASCII letters and digits. */
  predicate IsAlnum(c: char) {
    ('a' <= c <= 'z') || ('A' <= c <= 'Z') || ('0' <= c <= '9')
  }

  /** `str.lower` for one character, restricted to ASCII. */
  function Lower(c: char): char {
    if 'A' <= c <= 'Z' then (c as int + 32) as char else c
  }

  function LowerStr(s: string): string {
    seq(|s|, i requires 0 <= i < |s| => Lower(s[i]))
  }

  /** `p` occurs in `s` starting at index `j`. */
  predicate OccursAt(s: string, p: string, j: int) {
    0 <= j && j + |p| <= |s| && s[j..j + |p|] == p
  }

  /** The search behind `p in s` and `s.split(p)`: the first index at which `p` occurs in `s`,
      or -1. */
  function IndexOf(s: string, p: string): (r: int)
    ensures r == -1 || OccursAt(s, p, r)
    decreases |s|
  {
    if |p| <= |s| && s[..|p|] == p then 0
    else if s == [] then -1
    else
      var k := IndexOf(s[1..], p);
      if k < 0 then -1
      else
        assert s[1..][k..k + |p|] == s[k + 1..k + 1 + |p|];
        k + 1
  }

  /** Python's `p in s` for strings. */
  predicate Contains(s: string, p: string) {
    IndexOf(s, p) >= 0
  }

  /** The search finds the FIRST occurrence: none starts before it. */
  lemma {:induction false} IndexOfIsFirst(s: string, p: string, j: int)
    requires OccursAt(s, p, j)
    ensures 0 <= IndexOf(s, p) <= j
    decreases |s|
  {
    if |p| <= |s| && s[..|p|] == p {
    } else {
      assert j != 0;
      assert s[1..][j - 1..j - 1 + |p|] == s[j..j + |p|];
      IndexOfIsFirst(s[1..], p, j - 1);
    }
  }

  /** `p in s` holds exactly when `p` occurs somewhere in `s`. */
  lemma ContainsIff(s: string, p: string)
    ensures Contains(s, p) <==> exists j :: OccursAt(s, p, j)
  {
    if exists j :: OccursAt(s, p, j) {
      var j :| OccursAt(s, p, j);
      IndexOfIsFirst(s, p, j);
    }
  }

  /** No occurrence of `p` starts before `IndexOf(s, p)`, and none at all when it reports -1. */
  lemma NoOccurrenceBefore(s: string, p: string)
    ensures forall k :: 0 <= k && (IndexOf(s, p) < 0 || k < IndexOf(s, p)) ==> !OccursAt(s, p, k)
  {
    forall k | 0 <= k && (IndexOf(s, p) < 0 || k < IndexOf(s, p)) ensures !OccursAt(s, p, k) {
      if OccursAt(s, p, k) {
        IndexOfIsFirst(s, p, k);
      }
    }
  }

  /** For a one-character pattern, `[c] in s` is membership of `c`. */
  lemma ContainsChar(s: string, c: char)
    ensures Contains(s, [c]) <==> c in s
  {
    ContainsIff(s, [c]);
    if c in s {
      var j :| 0 <= j < |s| && s[j] == c;
      assert OccursAt(s, [c], j);
    }
    if Contains(s, [c]) {
      var j :| OccursAt(s, [c], j);
      assert s[j] == s[j..j + 1][0];
    }
  }

  /** `sep.join(parts)`. */
  function JoinWith(parts: seq<string>, sep: string): string {
    if parts == [] then []
    else if |parts| == 1 then parts[0]
    else parts[0] + sep + JoinWith(parts[1..], sep)
  }

  /** `s.split(sep)` for a non-empty separator: cut at each occurrence, from the left. */
  function SplitOn(s: string, sep: string): (parts: seq<string>)
    requires sep != []
    ensures |parts| >= 1
    decreases |s|
  {
    var i := IndexOf(s, sep);
    if i < 0 then [s] else [s[..i]] + SplitOn(s[i + |sep|..], sep)
  }

  /** Joining the pieces of `s.split(sep)` with `sep` gives back `s`. */
  lemma {:induction false} SplitOnJoin(s: string, sep: string)
    requires sep != []
    ensures JoinWith(SplitOn(s, sep), sep) == s
    decreases |s|
  {
    var i := IndexOf(s, sep);
    if i >= 0 {
      var rest := SplitOnStep(s, sep);
      SplitOnJoin(rest, sep);
      JoinCons(s[..i], SplitOn(rest, sep), sep);
    }
  }

  /** One step of `s.split(sep)` when `sep` occurs: the first piece, then the split of the rest. */
  lemma SplitOnStep(s: string, sep: string) returns (rest: string)
    requires sep != [] && IndexOf(s, sep) >= 0
    ensures var i := IndexOf(s, sep);
            && i + |sep| <= |s| && rest == s[i + |sep|..] && |rest| < |s|
            && SplitOn(s, sep) == [s[..i]] + SplitOn(rest, sep)
            && s == s[..i] + sep + rest
  {
    var i := IndexOf(s, sep);
    rest := s[i + |sep|..];
    assert s[i..i + |sep|] == sep;
    assert s == s[..i] + s[i..i + |sep|] + rest;
  }

  lemma JoinCons(x: string, tail: seq<string>, sep: string)
    requires |tail| >= 1
    ensures JoinWith([x] + tail, sep) == x + sep + JoinWith(tail, sep)
  {
    assert ([x] + tail)[1..] == tail;
  }

  /** No piece of `s.split(sep)` contains `sep`, and every character of a piece is one of `s`. */
  lemma {:induction false} SplitOnPieces(s: string, sep: string)
    requires sep != []
    ensures forall k :: 0 <= k < |SplitOn(s, sep)| ==> !Contains(SplitOn(s, sep)[k], sep)
    ensures forall k, c :: 0 <= k < |SplitOn(s, sep)| && c in SplitOn(s, sep)[k] ==> c in s
    decreases |s|
  {
    var i := IndexOf(s, sep);
    if i >= 0 {
      var rest := s[i + |sep|..];
      SplitOnPieces(rest, sep);
      var head := s[..i];
      if Contains(head, sep) {
        ContainsIff(head, sep);
        var j :| OccursAt(head, sep, j);
        assert s[j..j + |sep|] == head[j..j + |sep|];
        IndexOfIsFirst(s, sep, j);
        assert false;
      }
      var parts := SplitOn(s, sep);
      assert parts[1..] == SplitOn(rest, sep);
      forall k, c | 0 <= k < |parts| && c in parts[k] ensures c in s {
        if k == 0 {
          assert c in head;
        } else {
          assert parts[k] == SplitOn(rest, sep)[k - 1];
          assert c in rest;
        }
      }
    } else {
      ContainsIff(s, sep);
    }
  }

  /** When `s` contains `sep`, `s.split(sep)` has at least two pieces, and the second is the text
      that follows the first occurrence of `sep`, up to the next occurrence or the end. */
  lemma SplitOnSecond(s: string, sep: string)
    requires sep != [] && Contains(s, sep)
    ensures |SplitOn(s, sep)| >= 2
    ensures var i := IndexOf(s, sep);
            var rest := s[i + |sep|..];
            var e := IndexOf(rest, sep);
            SplitOn(s, sep)[1] == if e < 0 then rest else rest[..e]
  {
  }

  /** The second piece of `s.split(sep)` is a contiguous piece of `s`. */
  lemma SecondPieceInside(s: string, sep: string)
    requires sep != [] && Contains(s, sep)
    ensures |SplitOn(s, sep)| >= 2 && Contains(s, SplitOn(s, sep)[1])
  {
    SplitOnSecond(s, sep);
    var i := IndexOf(s, sep);
    var piece := SplitOn(s, sep)[1];
    assert s[i + |sep|..i + |sep| + |piece|] == piece;
    IndexOfIsFirst(s, piece, i + |sep|);
  }

  /** Splitting `a + [c] + b` on `c`, when `a` has no `c`, cuts exactly after `a`. */
  lemma SplitOnCharCons(a: string, c: char, b: string)
    requires c !in a
    ensures SplitOn(a + [c] + b, [c]) == [a] + SplitOn(b, [c])
  {
    var s := a + [c] + b;
    assert s[|a|..|a| + 1] == [c];
    IndexOfIsFirst(s, [c], |a|);
    var i := IndexOf(s, [c]);
    assert s[i] == s[i..i + 1][0];
    assert i == |a|;
    assert s[..i] == a && s[i + 1..] == b;
  }

  /** `s.split(c)[0]` is the text before the first `c`, or all of `s` when it has none. */
  lemma SplitOnCharFirst(s: string, c: char) returns (j: nat)
    ensures j <= |s| && SplitOn(s, [c])[0] == s[..j]
    ensures forall k :: 0 <= k < j ==> s[k] != c
    ensures j < |s| ==> s[j] == c
  {
    var i := IndexOf(s, [c]);
    j := if i < 0 then |s| else i;
    NoOccurrenceBefore(s, [c]);
    forall k | 0 <= k < j ensures s[k] != c {
      assert s[k..k + 1] == [s[k]];
      assert !OccursAt(s, [c], k);
    }
    if i >= 0 {
      assert s[i] == s[i..i + 1][0];
    }
  }

  lemma SliceOfSlice(c: string, j: nat, m: nat, i: nat, n: nat)
    requires j <= m <= |c| && i <= n <= m - j
    ensures c[j..m][i..n] == c[j + i..j + n]
  {
    forall k | 0 <= k < n - i ensures c[j..m][i..n][k] == c[j + i..j + n][k] {
      assert c[j..m][i..n][k] == c[j..m][i + k] == c[j + i + k];
    }
  }

  /** A piece of a piece of `s` is a piece of `s`. */
  lemma ContainsTrans(c: string, b: string, a: string)
    requires Contains(b, a) && Contains(c, b)
    ensures Contains(c, a)
  {
    var i := IndexOf(b, a);
    var j := IndexOf(c, b);
    assert b[i..i + |a|] == a && c[j..j + |b|] == b;
    SliceOfSlice(c, j, j + |b|, i, i + |a|);
    IndexOfIsFirst(c, a, j + i);
  }

  /** `s` with its leading whitespace removed (`str.lstrip()`). */
  function DropSpaces(s: string): (r: string)
    ensures |r| <= |s|
  {
    if s != [] && IsSpace(s[0]) then DropSpaces(s[1..]) else s
  }

  /** `str.lstrip()` removes a prefix made only of whitespace, and what it keeps does not begin
      with whitespace. */
  lemma {:induction false} DropSpacesSpec(s: string)
    ensures DropSpaces(s) == s[|s| - |DropSpaces(s)|..]
    ensures DropSpaces(s) == [] || !IsSpace(DropSpaces(s)[0])
    ensures forall k :: 0 <= k < |s| - |DropSpaces(s)| ==> IsSpace(s[k])
  {
    if s != [] && IsSpace(s[0]) {
      DropSpacesSpec(s[1..]);
      forall k | 1 <= k < |s| - |DropSpaces(s)| ensures IsSpace(s[k]) {
        assert s[k] == s[1..][k - 1];
      }
    }
  }

  /** The length of the run of non-whitespace characters that begins `s`. */
  function WordLen(s: string): (n: nat)
    ensures n <= |s|
  {
    if s == [] || IsSpace(s[0]) then 0 else 1 + WordLen(s[1..])
  }

  /** The run measured by `WordLen` holds no whitespace and is maximal. */
  lemma {:induction false} WordLenSpec(s: string)
    ensures forall k :: 0 <= k < WordLen(s) ==> !IsSpace(s[k])
    ensures WordLen(s) < |s| ==> IsSpace(s[WordLen(s)])
    ensures s != [] && !IsSpace(s[0]) ==> WordLen(s) >= 1
  {
    if s != [] && !IsSpace(s[0]) {
      WordLenSpec(s[1..]);
      forall k | 1 <= k < WordLen(s) ensures !IsSpace(s[k]) {
        assert s[k] == s[1..][k - 1];
      }
    }
  }

  /** A word of `str.split()`: non-empty, without whitespace. */
  predicate IsWord(w: string) {
    w != [] && forall k :: 0 <= k < |w| ==> !IsSpace(w[k])
  }

  /** `s.split()`: the maximal runs of non-whitespace characters, in order. */
  function SplitWs(s: string): seq<string>
    decreases |s|
  {
    var t := DropSpaces(s);
    if t == [] then []
    else
      var n := WordLen(t);
      [t[..n]] + SplitWs(t[n..])
  }

  /** Every piece of `s.split()` is a word, and the pieces put together are the non-whitespace
      text of `s`, in order. */
  lemma {:induction false} SplitWsWords(s: string)
    ensures forall k :: 0 <= k < |SplitWs(s)| ==> IsWord(SplitWs(s)[k])
    ensures Concat(SplitWs(s)) == NonSpace(s)
    decreases |s|
  {
    SplitWsConcat(s);
    var t := DropSpaces(s);
    if t != [] {
      DropSpacesSpec(s);
      WordLenSpec(t);
      var n := WordLen(t);
      SplitWsWords(t[n..]);
      var words := SplitWs(s);
      assert words == [t[..n]] + SplitWs(t[n..]);
      forall k | 0 <= k < |words| ensures IsWord(words[k]) {
        if k > 0 {
          assert words[k] == SplitWs(t[n..])[k - 1];
        }
      }
    }
  }

  /** Text with no whitespace at all, possibly empty. */
  predicate SpaceFree(w: string) {
    forall k :: 0 <= k < |w| ==> !IsSpace(w[k])
  }

  /** The non-empty strings of `pieces`, in order. */
  function NonEmpty(pieces: seq<string>): seq<string> {
    if pieces == [] then [] else (if pieces[0] == [] then [] else [pieces[0]]) + NonEmpty(pieces[1..])
  }

  /** Leading whitespace of `a + b`: all of `a` goes when it is all whitespace, and otherwise only
      the leading whitespace of `a` does. */
  lemma {:induction false} DropSpacesAppend(a: string, b: string)
    ensures DropSpaces(a) == [] ==> DropSpaces(a + b) == DropSpaces(b)
    ensures DropSpaces(a) != [] ==> DropSpaces(a + b) == DropSpaces(a) + b
    decreases |a|
  {
    if a == [] {
      assert a + b == b;
    } else {
      assert (a + b)[0] == a[0];
      assert (a + b)[1..] == a[1..] + b;
      if IsSpace(a[0]) {
        DropSpacesAppend(a[1..], b);
      }
    }
  }

  lemma {:induction false} DropSpacesOfSpaces(s: string)
    requires forall k :: 0 <= k < |s| ==> IsSpace(s[k])
    ensures DropSpaces(s) == []
  {
    if s != [] {
      assert forall k :: 0 <= k < |s[1..]| ==> s[1..][k] == s[k + 1];
      DropSpacesOfSpaces(s[1..]);
    }
  }

  /** A word ends where whitespace follows it. */
  lemma {:induction false} WordLenAppend(a: string, b: string)
    requires WordLen(a) < |a| || (b != [] && IsSpace(b[0]))
    ensures WordLen(a + b) == WordLen(a)
    decreases |a|
  {
    if a == [] {
      assert a + b == b;
    } else {
      assert (a + b)[0] == a[0];
      if !IsSpace(a[0]) {
        assert (a + b)[1..] == a[1..] + b;
        WordLenAppend(a[1..], b);
      }
    }
  }

  lemma {:induction false} WordLenOfSpaceFree(w: string)
    requires SpaceFree(w)
    ensures WordLen(w) == |w|
  {
    if w != [] {
      assert forall k :: 0 <= k < |w[1..]| ==> w[1..][k] == w[k + 1];
      WordLenOfSpaceFree(w[1..]);
    }
  }

  /** `s.split()` of text that is all whitespace is empty. */
  lemma SplitWsOfSpaces(s: string)
    requires forall k :: 0 <= k < |s| ==> IsSpace(s[k])
    ensures SplitWs(s) == []
  {
    DropSpacesOfSpaces(s);
    SplitWsSameDrop(s, []);
  }

  /** `s.split()` of text without whitespace is that text alone, or nothing when it is empty: a
      word is never cut. */
  lemma SplitWsOfSpaceFree(w: string)
    requires SpaceFree(w)
    ensures SplitWs(w) == if w == [] then [] else [w]
  {
    if w != [] {
      assert DropSpaces(w) == w;
      WordLenOfSpaceFree(w);
      assert w[..|w|] == w;
      assert w[|w|..] == [];
      assert SplitWs([]) == [];
    }
  }

  /** `s.split()` cuts at every whitespace character: splitting `a`, a whitespace character and
      `b` gives the words of `a` followed by the words of `b`. */
  lemma {:induction false} SplitWsAround(a: string, c: char, b: string)
    requires IsSpace(c)
    ensures SplitWs(a + [c] + b) == SplitWs(a) + SplitWs(b)
    decreases |a|
  {
    if DropSpaces(a) == [] {
      SplitWsLeadingSpaces(a, c, b);
    } else {
      var x := [c] + b;
      assert a + [c] + b == a + x;
      var w, rest := SplitWsFirstWord(a, x);
      assert rest + [c] + b == rest + x;
      SplitWsAround(rest, c, b);
      ConsAssoc(w, SplitWs(rest), SplitWs(b));
    }
  }

  /** When `a` is all whitespace, splitting `a`, whitespace and `b` is splitting `b`. */
  lemma SplitWsLeadingSpaces(a: string, c: char, b: string)
    requires IsSpace(c) && DropSpaces(a) == []
    ensures SplitWs(a) == [] && SplitWs(a + [c] + b) == SplitWs(b)
  {
    DropSpacesAppend(a, [c] + b);
    assert a + [c] + b == a + ([c] + b);
    assert ([c] + b)[1..] == b;
    SplitWsSameDrop(a + ([c] + b), b);
  }

  /** When `a` holds a word, that word comes first both in the split of `a` and in the split of
      `a + x`, where `x` begins with whitespace; what follows it is the same shorter `rest` in both. */
  lemma SplitWsFirstWord(a: string, x: string) returns (w: string, rest: string)
    requires DropSpaces(a) != [] && x != [] && IsSpace(x[0])
    ensures |rest| < |a|
    ensures SplitWs(a) == [w] + SplitWs(rest)
    ensures SplitWs(a + x) == [w] + SplitWs(rest + x)
  {
    var t := DropSpaces(a);
    var n := WordLen(t);
    rest := SplitWsStep(a);
    w := t[..n];
    DropSpacesAppend(a, x);
    WordLenAppend(t, x);
    SliceAppend(t, x, n);
  }

  lemma ConsAssoc(w: string, l: seq<string>, r: seq<string>)
    ensures [w] + (l + r) == [w] + l + r
  {
  }

  lemma SliceAppend(t: string, x: string, n: nat)
    requires n <= |t|
    ensures (t + x)[..n] == t[..n] && (t + x)[n..] == t[n..] + x
  {
  }

  /** `s.split()` depends only on `s` with its leading whitespace removed. */
  lemma SplitWsSameDrop(x: string, y: string)
    requires DropSpaces(x) == DropSpaces(y)
    ensures SplitWs(x) == SplitWs(y)
  {
  }

  /** `s.split()` of pieces without whitespace joined by single spaces gives back the non-empty
      pieces. */
  lemma {:induction false} SplitWsJoin(pieces: seq<string>)
    requires forall k :: 0 <= k < |pieces| ==> SpaceFree(pieces[k])
    ensures SplitWs(JoinWith(pieces, " ")) == NonEmpty(pieces)
  {
    if pieces == [] {
      assert SplitWs([]) == [];
    } else if |pieces| == 1 {
      SplitWsOfSpaceFree(pieces[0]);
      assert pieces[1..] == [];
    } else {
      var p := pieces[0];
      var tail := pieces[1..];
      assert forall k :: 0 <= k < |tail| ==> tail[k] == pieces[k + 1];
      SplitWsJoin(tail);
      SplitWsOfSpaceFree(p);
      assert JoinWith(pieces, " ") == p + [' '] + JoinWith(tail, " ");
      SplitWsAround(p, ' ', JoinWith(tail, " "));
    }
  }

  lemma {:induction false} NonEmptyOfWords(words: seq<string>)
    requires forall k :: 0 <= k < |words| ==> IsWord(words[k])
    ensures NonEmpty(words) == words
  {
    if words != [] {
      assert forall k :: 0 <= k < |words[1..]| ==> words[1..][k] == words[k + 1];
      NonEmptyOfWords(words[1..]);
    }
  }

  /** `' '.join(words).split()` gives back the words. */
  lemma SplitJoinWords(words: seq<string>)
    requires forall k :: 0 <= k < |words| ==> IsWord(words[k])
    ensures SplitWs(JoinWith(words, " ")) == words
  {
    SplitWsJoin(words);
    NonEmptyOfWords(words);
  }

  /** `s.split()` ignores whitespace at either end, so `s.strip().split()` is `s.split()`. */
  lemma SplitWsStrip(s: string)
    ensures SplitWs(Strip(s)) == SplitWs(s)
  {
    var t := DropSpaces(s);
    DropSpacesSpec(s);
    assert DropSpaces(t) == t;
    SplitWsSameDrop(t, s);
    var r := DropTrailingSpaces(t);
    DropTrailingSpec(t);
    assert t == r + t[|r|..];
    SplitWsTrailingSpaces(r, t[|r|..]);
  }

  /** Whitespace at the end does not change `s.split()`. */
  lemma SplitWsTrailingSpaces(x: string, y: string)
    requires forall k :: 0 <= k < |y| ==> IsSpace(y[k])
    ensures SplitWs(x + y) == SplitWs(x)
  {
    if y == [] {
      assert x + y == x;
    } else {
      assert x + y == x + [y[0]] + y[1..];
      SplitWsAround(x, y[0], y[1..]);
      SplitWsOfSpaces(y[1..]);
      assert SplitWs(x) + [] == SplitWs(x);
    }
  }

  /** One step of `s.split()` when `s` is not all whitespace: the first word, then the split of the
      rest, which is either empty or begins with whitespace. */
  lemma SplitWsStep(s: string) returns (rest: string)
    requires DropSpaces(s) != []
    ensures var t := DropSpaces(s);
            var n := WordLen(t);
            && rest == t[n..] && n >= 1 && |rest| + n == |t|
            && SplitWs(s) == [t[..n]] + SplitWs(rest)
            && (rest != [] ==> IsSpace(rest[0]))
            && (s != [] && IsSpace(s[0]) ==> |t| < |s|)
  {
    var t := DropSpaces(s);
    DropSpacesSpec(s);
    WordLenSpec(t);
    rest := t[WordLen(t)..];
  }

  /** `s` with every whitespace character removed: the text that `str.split()` and `str.strip()`
      never touch. */
  function NonSpace(s: string): (r: string)
    ensures |r| <= |s|
  {
    if s == [] then [] else (if IsSpace(s[0]) then [] else [s[0]]) + NonSpace(s[1..])
  }

  /** `''.join(parts)`. */
  function Concat(parts: seq<string>): string {
    if parts == [] then [] else parts[0] + Concat(parts[1..])
  }

  lemma {:induction false} NonSpaceAppend(a: string, b: string)
    ensures NonSpace(a + b) == NonSpace(a) + NonSpace(b)
    decreases |a|
  {
    if a == [] {
      assert a + b == b;
    } else {
      assert (a + b)[0] == a[0];
      assert (a + b)[1..] == a[1..] + b;
      NonSpaceAppend(a[1..], b);
    }
  }

  /** Text made only of whitespace has nothing left. */
  lemma {:induction false} NonSpaceOfSpaces(s: string)
    requires forall k :: 0 <= k < |s| ==> IsSpace(s[k])
    ensures NonSpace(s) == []
  {
    if s != [] {
      assert forall k :: 0 <= k < |s[1..]| ==> s[1..][k] == s[k + 1];
      NonSpaceOfSpaces(s[1..]);
    }
  }

  /** Text without whitespace is left as it is. */
  lemma {:induction false} NonSpaceOfWord(w: string)
    requires forall k :: 0 <= k < |w| ==> !IsSpace(w[k])
    ensures NonSpace(w) == w
  {
    if w != [] {
      assert forall k :: 0 <= k < |w[1..]| ==> w[1..][k] == w[k + 1];
      NonSpaceOfWord(w[1..]);
    }
  }

  /** Cutting leading whitespace loses no non-whitespace text. */
  lemma {:induction false} NonSpaceDrop(s: string)
    ensures NonSpace(DropSpaces(s)) == NonSpace(s)
  {
    if s != [] && IsSpace(s[0]) {
      NonSpaceDrop(s[1..]);
    }
  }

  /** The words of `s.split()`, put together, are the non-whitespace text of `s`, in order. */
  lemma {:induction false} SplitWsConcat(s: string)
    ensures Concat(SplitWs(s)) == NonSpace(s)
    decreases |s|
  {
    NonSpaceDrop(s);
    var t := DropSpaces(s);
    if t == [] {
      assert SplitWs(s) == [];
    } else {
      var rest := SplitWsStep(s);
      var n := WordLen(t);
      WordLenSpec(t);
      SplitWsConcat(rest);
      assert t == t[..n] + rest;
      NonSpaceAppend(t[..n], rest);
      NonSpaceOfWord(t[..n]);
      assert ([t[..n]] + SplitWs(rest))[1..] == SplitWs(rest);
    }
  }

  /** Joining words with single spaces adds no non-whitespace text. */
  lemma {:induction false} NonSpaceJoin(words: seq<string>)
    requires forall k :: 0 <= k < |words| ==> IsWord(words[k])
    ensures NonSpace(JoinWith(words, " ")) == Concat(words)
  {
    if |words| == 1 {
      NonSpaceOfWord(words[0]);
      assert Concat(words) == words[0] + Concat([]);
    } else if |words| > 1 {
      var w := words[0];
      var tail := words[1..];
      NonSpaceJoin(tail);
      NonSpaceOfWord(w);
      NonSpaceAppend(w + " ", JoinWith(tail, " "));
      NonSpaceAppend(w, " ");
      assert NonSpace(" ") == [] by {
        assert " "[1..] == [];
      }
    }
  }

  /** `s.strip()` cuts only whitespace, so it keeps all the non-whitespace text. */
  lemma NonSpaceStrip(s: string)
    ensures NonSpace(Strip(s)) == NonSpace(s)
  {
    StripSpec(s);
    var i := StripStart(s);
    var e := i + |Strip(s)|;
    assert s == s[..i] + Strip(s) + s[e..];
    NonSpaceAppend(s[..i] + Strip(s), s[e..]);
    NonSpaceAppend(s[..i], Strip(s));
    NonSpaceOfSpaces(s[..i]);
    NonSpaceOfSpaces(s[e..]);
  }

  /** `s.rstrip()`. */
  function DropTrailingSpaces(s: string): (r: string)
    ensures |r| <= |s|
  {
    if s != [] && IsSpace(s[|s| - 1]) then DropTrailingSpaces(s[..|s| - 1]) else s
  }

  /** `str.rstrip()` removes a suffix made only of whitespace, and what it keeps does not end
      with whitespace. */
  lemma {:induction false} DropTrailingSpec(s: string)
    ensures DropTrailingSpaces(s) == s[..|DropTrailingSpaces(s)|]
    ensures DropTrailingSpaces(s) == [] || !IsSpace(DropTrailingSpaces(s)[|DropTrailingSpaces(s)| - 1])
    ensures forall k :: |DropTrailingSpaces(s)| <= k < |s| ==> IsSpace(s[k])
    decreases |s|
  {
    if s != [] && IsSpace(s[|s| - 1]) {
      DropTrailingSpec(s[..|s| - 1]);
    }
  }

  /** `s.strip()`. */
  function Strip(s: string): string {
    DropTrailingSpaces(DropSpaces(s))
  }

  /** The number of whitespace characters that `s.strip()` cuts from the front of `s`. */
  function StripStart(s: string): nat {
    |s| - |DropSpaces(s)|
  }

  /** `s.strip()` removes whitespace at both ends and nothing else: the result is the slice of `s`
      from `StripStart(s)`, it neither begins nor ends with whitespace, and everything cut off is
      whitespace. */
  lemma StripSpec(s: string)
    ensures StripStart(s) + |Strip(s)| <= |s|
    ensures Strip(s) == s[StripStart(s)..StripStart(s) + |Strip(s)|]
    ensures forall k :: 0 <= k < StripStart(s) ==> IsSpace(s[k])
    ensures forall k :: StripStart(s) + |Strip(s)| <= k < |s| ==> IsSpace(s[k])
    ensures Strip(s) == [] || (!IsSpace(Strip(s)[0]) && !IsSpace(Strip(s)[|Strip(s)| - 1]))
  {
    var t := DropSpaces(s);
    var r := Strip(s);
    var i := |s| - |t|;
    DropSpacesSpec(s);
    DropTrailingSpec(t);
    assert r == s[i..i + |r|];
    forall k | i + |r| <= k < |s| ensures IsSpace(s[k]) {
      assert s[k] == t[k - i];
    }
    if r != [] {
      assert r[0] == t[0];
    }
  }

  /** `s.strip()` is a contiguous piece of `s`. */
  lemma StripInside(s: string)
    ensures Contains(s, Strip(s))
  {
    StripSpec(s);
    IndexOfIsFirst(s, Strip(s), StripStart(s));
  }

  /** A prefix of `s` is a contiguous piece of `s`. */
  lemma PrefixInside(s: string, n: nat)
    requires n <= |s|
    ensures Contains(s, s[..n])
  {
    IndexOfIsFirst(s, s[..n], 0);
  }

  /** Every character of `s.strip()` is a character of `s`. */
  lemma StripChars(s: string)
    ensures forall c :: c in Strip(s) ==> c in s
  {
    StripSpec(s);
    var i := StripStart(s);
    forall c | c in Strip(s) ensures c in s {
      var k :| 0 <= k < |Strip(s)| && Strip(s)[k] == c;
      assert s[i + k] == c;
    }
  }
}
