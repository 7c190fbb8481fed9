/**
 * `clean_transcript`: collapse whitespace runs to single spaces, drop every
 * character that is neither a letter, a digit nor one of a fixed set of
 * punctuation marks, and strip the ends.
 */
module Cleaning {
  import opened PyText

  /** The characters besides letters and digits that `clean_transcript` keeps. */
  const KeptPunctuation: string := " .,?!:;-()[]{}'\""

  predicate IsKept(c: char) {
    IsAlnum(c) || c in KeptPunctuation
  }

  /** Whitespace in `r` is only single spaces between non-whitespace characters. */
  predicate SingleSpaced(r: string) {
    && (forall k :: 0 <= k < |r| && IsSpace(r[k]) ==> r[k] == ' ')
    && (r != [] ==> !IsSpace(r[0]) && !IsSpace(r[|r| - 1]))
    && (forall k :: 0 <= k < |r| - 1 ==> !IsSpace(r[k]) || !IsSpace(r[k + 1]))
  }

  /** `' '.join(s.split())`. */
  function CollapseSpaces(s: string): string {
    JoinWith(SplitWs(s), " ")
  }

  /** The generator filter `''.join(c for c in s if c.isalnum() or c in ...)`. */
  function KeepAllowed(s: string): (r: string)
    ensures |r| <= |s|
  {
    if s == [] then []
    else (if IsKept(s[0]) then [s[0]] else []) + KeepAllowed(s[1..])
  }

  /** The filter keeps exactly the allowed characters, in order: every character of its result is
      allowed, each comes from its own position of the input in increasing order, and every
      position of the input holding an allowed character is one of them. */
  lemma {:induction false} KeepAllowedSpec(s: string)
    ensures forall k :: 0 <= k < |KeepAllowed(s)| ==> IsKept(KeepAllowed(s)[k])
    ensures forall c :: c in s && IsKept(c) ==> c in KeepAllowed(s)
    ensures Embedding(KeepAllowed(s), s, KeptIndices(s))
    ensures forall k :: 0 <= k < |s| && IsKept(s[k]) ==> k in KeptIndices(s)
  {
    KeepAllowedEmbeds(s);
    KeptIndicesComplete(s);
    if s != [] {
      KeepAllowedSpec(s[1..]);
      var tail := KeepAllowed(s[1..]);
      var head: string := if IsKept(s[0]) then [s[0]] else [];
      assert KeepAllowed(s) == head + tail;
      forall k | 0 <= k < |KeepAllowed(s)| ensures IsKept(KeepAllowed(s)[k]) {
        if k >= |head| {
          assert KeepAllowed(s)[k] == tail[k - |head|];
        }
      }
      forall c | c in s && IsKept(c) ensures c in KeepAllowed(s) {
        if c != s[0] {
          assert c in s[1..];
        }
      }
    }
  }

  /** `a` is `b` with some characters left out: `idx` says where each character of `a` sits in `b`. */
  ghost predicate Embedding(a: string, b: string, idx: seq<nat>) {
    && |idx| == |a|
    && (forall k :: 0 <= k < |idx| ==> idx[k] < |b| && a[k] == b[idx[k]])
    && (forall k, l :: 0 <= k < l < |idx| ==> idx[k] < idx[l])
  }

  ghost predicate IsSubsequence(a: string, b: string) {
    exists idx :: Embedding(a, b, idx)
  }

  /** `clean_transcript(transcript)`. */
  function CleanTranscript(transcript: string): string {
    Strip(KeepAllowed(CollapseSpaces(transcript)))
  }

  /** The cleaned text holds only the kept characters, whitespace in it is only the space and
      never at either end, and it is an in-order subsequence of the whitespace-collapsed input,
      so never longer than the input. Exactly, it is the input's words, each filtered, joined by
      single spaces and stripped: a word the filter empties leaves two spaces in its place. */
  lemma CleanTranscriptSpec(transcript: string)
    ensures var r := CleanTranscript(transcript);
            && (forall k :: 0 <= k < |r| ==> IsKept(r[k]))
            && (forall k :: 0 <= k < |r| && IsSpace(r[k]) ==> r[k] == ' ')
            && '\n' !in r && '\t' !in r
            && (r == [] || (r[0] != ' ' && r[|r| - 1] != ' '))
            && IsSubsequence(r, CollapseSpaces(transcript))
            && |r| <= |CollapseSpaces(transcript)| <= |transcript|
            && NonSpace(r) == KeepAllowed(NonSpace(transcript))
            && SplitWs(r) == NonEmpty(KeepEach(SplitWs(transcript)))
            && r == Strip(JoinWith(KeepEach(SplitWs(transcript)), " "))
  {
    KeepJoin(SplitWs(transcript));
    CleanKeepsText(transcript);
    CleanKeepsWords(transcript);
    CleanShape(CollapseSpaces(transcript));
    CleanSubsequence(CollapseSpaces(transcript));
    CollapseLength(transcript);
  }

  /** Filtering and stripping leave only kept characters, no whitespace but the space, and no
      space at either end. */
  lemma CleanShape(collapsed: string)
    ensures var r := Strip(KeepAllowed(collapsed));
            && (forall k :: 0 <= k < |r| ==> IsKept(r[k]))
            && (forall k :: 0 <= k < |r| && IsSpace(r[k]) ==> r[k] == ' ')
            && '\n' !in r && '\t' !in r
            && (r == [] || (r[0] != ' ' && r[|r| - 1] != ' '))
            && |r| <= |collapsed|
  {
    var kept := KeepAllowed(collapsed);
    var r := Strip(kept);
    StripSpec(kept);
    KeepAllowedSpec(collapsed);
    assert forall k :: 0 <= k < |r| ==> r[k] == kept[StripStart(kept) + k];
    KeptNotSpace(r);
  }

  /** Apart from whitespace, the cleaned text is exactly the allowed characters of the input, in
      order: collapsing and stripping only touch whitespace. */
  lemma CleanKeepsText(transcript: string)
    ensures NonSpace(CleanTranscript(transcript)) == KeepAllowed(NonSpace(transcript))
  {
    var collapsed := CollapseSpaces(transcript);
    NonSpaceStrip(KeepAllowed(collapsed));
    NonSpaceKeep(collapsed);
    CollapseSpacesSpec(transcript);
  }

  /** The words of the cleaned text are the words of the input, each filtered, with the words
      that the filter empties dropped: a space still separates every two surviving words. */
  lemma CleanKeepsWords(transcript: string)
    ensures SplitWs(CleanTranscript(transcript)) == NonEmpty(KeepEach(SplitWs(transcript)))
  {
    var words := SplitWs(transcript);
    SplitWsWords(transcript);
    var kept := KeepEach(words);
    forall k | 0 <= k < |kept| ensures SpaceFree(kept[k]) {
      KeepSpaceFree(words[k]);
    }
    KeepJoin(words);
    SplitWsJoin(kept);
    SplitWsStrip(KeepAllowed(CollapseSpaces(transcript)));
  }

  /** The filter applied to each word of `words`. */
  function KeepEach(words: seq<string>): seq<string> {
    seq(|words|, k requires 0 <= k < |words| => KeepAllowed(words[k]))
  }

  /** Filtering text joined by spaces is joining the filtered pieces: the space is kept. */
  lemma {:induction false} KeepJoin(words: seq<string>)
    ensures KeepAllowed(JoinWith(words, " ")) == JoinWith(KeepEach(words), " ")
  {
    if |words| == 1 {
      assert KeepEach(words) == [KeepAllowed(words[0])];
    } else if |words| >= 2 {
      var tail := words[1..];
      KeepJoin(tail);
      assert JoinWith(words, " ") == (words[0] + " ") + JoinWith(tail, " ");
      KeepAllowedAppend(words[0] + " ", JoinWith(tail, " "));
      KeepAllowedAppend(words[0], " ");
      KeepStep(' ', []);
      assert KeepAllowed(" ") == " " by {
        assert " " == [' '] + [];
      }
      assert KeepEach(words) == [KeepAllowed(words[0])] + KeepEach(tail);
      JoinCons(KeepAllowed(words[0]), KeepEach(tail), " ");
    }
  }

  /** The filter never brings in whitespace. */
  lemma KeepSpaceFree(w: string)
    requires SpaceFree(w)
    ensures SpaceFree(KeepAllowed(w))
  {
    KeepAllowedEmbeds(w);
  }

  lemma {:induction false} KeepAllowedAppend(a: string, b: string)
    ensures KeepAllowed(a + b) == KeepAllowed(a) + KeepAllowed(b)
    decreases |a|
  {
    if a == [] {
      assert a + b == b;
    } else {
      var head: string := if IsKept(a[0]) then [a[0]] else [];
      assert (a + b)[0] == a[0];
      assert (a + b)[1..] == a[1..] + b;
      assert KeepAllowed(a + b) == head + KeepAllowed(a[1..] + b);
      KeepAllowedAppend(a[1..], b);
    }
  }

  /** Dropping whitespace and dropping disallowed characters are independent filters. */
  lemma {:induction false} NonSpaceKeep(s: string)
    ensures NonSpace(KeepAllowed(s)) == KeepAllowed(NonSpace(s))
  {
    if s != [] {
      NonSpaceKeep(s[1..]);
      var head: string := if IsKept(s[0]) then [s[0]] else [];
      var bare: string := if IsSpace(s[0]) then [] else [s[0]];
      NonSpaceAppend(head, KeepAllowed(s[1..]));
      KeepAllowedAppend(bare, NonSpace(s[1..]));
      assert [s[0]][1..] == [];
    }
  }

  lemma KeptNotSpace(r: string)
    requires forall k :: 0 <= k < |r| ==> IsKept(r[k])
    ensures forall k :: 0 <= k < |r| && IsSpace(r[k]) ==> r[k] == ' '
    ensures '\n' !in r && '\t' !in r
  {
    assert !IsKept('\n') && !IsKept('\t');
  }

  /** Indices into `s[1..]` as indices into `s`. */
  ghost function Shift(idx: seq<nat>): (r: seq<nat>)
    ensures |r| == |idx|
  {
    seq(|idx|, k requires 0 <= k < |idx| => idx[k] + 1)
  }

  /** Where each character kept by the filter came from. */
  ghost function KeptIndices(s: string): (idx: seq<nat>)
    ensures |idx| == |KeepAllowed(s)|
  {
    if s == [] then []
    else (if IsKept(s[0]) then [0] else []) + Shift(KeptIndices(s[1..]))
  }

  lemma EmbedShift(a: string, s: string, idx: seq<nat>)
    requires s != [] && Embedding(a, s[1..], idx)
    ensures Embedding(a, s, Shift(idx))
    ensures forall k :: 0 <= k < |idx| ==> Shift(idx)[k] >= 1
  {
  }

  lemma EmbedCons(a: string, s: string, idx: seq<nat>)
    requires s != [] && Embedding(a, s, idx)
    requires forall k :: 0 <= k < |idx| ==> idx[k] >= 1
    ensures Embedding([s[0]] + a, s, [0] + idx)
  {
  }

  lemma {:induction false} KeepAllowedEmbeds(s: string)
    ensures Embedding(KeepAllowed(s), s, KeptIndices(s))
    decreases |s|
  {
    if s != [] {
      var tail := KeepAllowed(s[1..]);
      var ti := KeptIndices(s[1..]);
      KeepAllowedEmbeds(s[1..]);
      EmbedShift(tail, s, ti);
      if IsKept(s[0]) {
        EmbedCons(tail, s, Shift(ti));
      }
    }
  }

  /** No allowed character is skipped: each position holding one is among the kept positions. */
  lemma {:induction false} KeptIndicesComplete(s: string)
    ensures forall k :: 0 <= k < |s| && IsKept(s[k]) ==> k in KeptIndices(s)
    decreases |s|
  {
    if s != [] {
      KeptIndicesComplete(s[1..]);
      var ti := KeptIndices(s[1..]);
      forall k | 1 <= k < |s| && IsKept(s[k]) ensures k in KeptIndices(s) {
        assert s[1..][k - 1] == s[k];
        var j :| 0 <= j < |ti| && ti[j] == k - 1;
        assert Shift(ti)[j] == k;
      }
    }
  }

  /** The stripped, filtered text is a subsequence of the collapsed text it came from. */
  lemma CleanSubsequence(c: string)
    ensures IsSubsequence(Strip(KeepAllowed(c)), c)
  {
    var kept := KeepAllowed(c);
    var idx := KeptIndices(c);
    KeepAllowedEmbeds(c);
    StripSpec(kept);
    var i := StripStart(kept);
    var r := Strip(kept);
    var w := idx[i..i + |r|];
    assert Embedding(r, c, w);
  }

  /** `' '.join(words)` of whitespace-free, non-empty words is single spaced. */
  lemma {:induction false} JoinWordsSingleSpaced(words: seq<string>)
    requires forall k :: 0 <= k < |words| ==> IsWord(words[k])
    ensures SingleSpaced(JoinWith(words, " "))
    ensures words != [] ==> JoinWith(words, " ") != []
  {
    if |words| == 1 {
    } else if |words| > 1 {
      var w := words[0];
      var tail := words[1..];
      JoinWordsSingleSpaced(tail);
      var j := JoinWith(tail, " ");
      var r := JoinWith(words, " ");
      assert r == w + " " + j;
      forall k | 0 <= k < |r| - 1 ensures !IsSpace(r[k]) || !IsSpace(r[k + 1]) {
        if k < |w| - 1 {
        } else if k == |w| - 1 {
        } else if k == |w| {
          assert r[k + 1] == j[0];
        } else {
          assert r[k] == j[k - |w| - 1] && r[k + 1] == j[k - |w|];
        }
      }
      forall k | 0 <= k < |r| && IsSpace(r[k]) ensures r[k] == ' ' {
        if k > |w| {
          assert r[k] == j[k - |w| - 1];
        }
      }
    }
  }

  /** Collapsing whitespace never lengthens the text, and shortens it when it begins with whitespace. */
  lemma {:induction false} CollapseLength(s: string)
    ensures |CollapseSpaces(s)| <= |s|
    ensures s != [] && IsSpace(s[0]) ==> |CollapseSpaces(s)| < |s|
    decreases |s|
  {
    var t := DropSpaces(s);
    if t == [] {
      assert SplitWs(s) == [];
    } else {
      var n := WordLen(t);
      var rest := SplitWsStep(s);
      var tw := SplitWs(rest);
      CollapseLength(rest);
      JoinLenCons(t[..n], tw);
      assert SplitWs([]) == [];
    }
  }

  lemma JoinLenCons(w: string, tail: seq<string>)
    ensures |JoinWith([w] + tail, " ")| == |w| + if tail == [] then 0 else 1 + |JoinWith(tail, " ")|
  {
    if tail != [] {
      JoinCons(w, tail, " ");
    }
  }

  /** `' '.join(s.split())` is single spaced, never longer than `s`, keeps all of the
      non-whitespace text of `s`, in order, and keeps its words whole and apart: splitting it
      again gives the words of `s`. */
  lemma CollapseSpacesSpec(s: string)
    ensures SingleSpaced(CollapseSpaces(s))
    ensures |CollapseSpaces(s)| <= |s|
    ensures NonSpace(CollapseSpaces(s)) == NonSpace(s)
    ensures SplitWs(CollapseSpaces(s)) == SplitWs(s)
  {
    SplitWsWords(s);
    SplitJoinWords(SplitWs(s));
    JoinWordsSingleSpaced(SplitWs(s));
    NonSpaceJoin(SplitWs(s));
    CollapseLength(s);
  }

  /** `clean_transcript` is not idempotent: dropping a character between two spaces leaves a
      double space, which a second cleaning collapses. */
  lemma CleanNotIdempotent()
    ensures CleanTranscript("a @ b") == "a  b"
    ensures CleanTranscript(CleanTranscript("a @ b")) == "a b"
  {
    CleanSampleDirty();
    CleanSampleTwice();
  }

  lemma CleanSampleDirty()
    ensures CleanTranscript("a @ b") == "a  b"
  {
    CollapseSample();
    KeepSample();
    StripSample();
  }

  lemma CleanSampleTwice()
    ensures CleanTranscript("a  b") == "a b"
  {
    CollapseSample();
    KeepSampleClean();
    StripSample();
  }

  lemma CollapseSample()
    ensures CollapseSpaces("a @ b") == "a @ b"
    ensures CollapseSpaces("a  b") == "a b"
  {
    SplitSample();
    assert JoinWith(["a", "@", "b"], " ") == "a @ b" by {
      assert ["a", "@", "b"][1..] == ["@", "b"];
      assert ["@", "b"][1..] == ["b"];
    }
    assert JoinWith(["a", "b"], " ") == "a b" by {
      assert ["a", "b"][1..] == ["b"];
    }
  }

  lemma StripSample()
    ensures Strip("a  b") == "a  b"
    ensures Strip("a b") == "a b"
  {
    assert DropSpaces("a  b") == "a  b";
    assert DropTrailingSpaces("a  b") == "a  b";
    assert DropSpaces("a b") == "a b";
    assert DropTrailingSpaces("a b") == "a b";
  }

  lemma KeepSample()
    ensures KeepAllowed("a @ b") == "a  b"
  {
    SampleCharsKept();
    KeepSampleClean();
    assert "@ b" == ['@'] + " b";
    KeepStep('@', " b");
    assert " @ b" == [' '] + "@ b";
    KeepStep(' ', "@ b");
    assert "a @ b" == ['a'] + " @ b";
    KeepStep('a', " @ b");
  }

  lemma KeepStep(c: char, s: string)
    ensures KeepAllowed([c] + s) == (if IsKept(c) then [c] else []) + KeepAllowed(s)
  {
    assert ([c] + s)[1..] == s;
  }

  lemma SampleCharsKept()
    ensures IsKept('a') && IsKept(' ') && IsKept('b') && !IsKept('@')
  {
    assert KeptPunctuation[0] == ' ';
  }

  lemma KeepSampleClean()
    ensures KeepAllowed(" b") == " b"
    ensures KeepAllowed("a b") == "a b"
  {
    SampleCharsKept();
    assert KeepAllowed("b") == "b" by {
      assert "b"[1..] == [];
    }
    assert KeepAllowed(" b") == " b" by {
      assert " b"[1..] == "b";
    }
    assert KeepAllowed("a b") == "a b" by {
      assert "a b"[1..] == " b";
    }
  }

  lemma SplitSample()
    ensures SplitWs("a @ b") == ["a", "@", "b"]
    ensures SplitWs("a  b") == ["a", "b"]
  {
    SplitSampleDirty();
    SplitSampleDouble();
  }

  lemma SplitSampleDirty()
    ensures SplitWs("a @ b") == ["a", "@", "b"]
  {
    SplitSampleTail();
    assert DropSpaces("a @ b") == "a @ b";
    assert WordLen("a @ b") == 1;
    assert "a @ b"[1..] == " @ b" && "a @ b"[..1] == "a";
  }

  lemma SplitSampleDouble()
    ensures SplitWs("a  b") == ["a", "b"]
  {
    SplitSampleTail();
    assert DropSpaces("a  b") == "a  b";
    assert WordLen("a  b") == 1;
    assert "a  b"[1..] == "  b" && "a  b"[..1] == "a";
  }

  lemma SplitSampleTail()
    ensures SplitWs(" @ b") == ["@", "b"]
    ensures SplitWs("  b") == ["b"]
  {
    SplitSampleLast();
    assert SplitWs("@ b") == ["@", "b"] by {
      assert DropSpaces("@ b") == "@ b";
      assert WordLen("@ b") == 1;
      assert "@ b"[1..] == " b" && "@ b"[..1] == "@";
    }
    assert DropSpaces(" @ b") == "@ b";
    assert DropSpaces("  b") == "b";
  }

  lemma SplitSampleLast()
    ensures SplitWs(" b") == ["b"]
    ensures SplitWs("b") == ["b"]
  {
    assert DropSpaces("b") == "b";
    assert WordLen("b") == 1;
    assert SplitWs([]) == [];
    assert "b"[1..] == [] && "b"[..1] == "b";
    assert DropSpaces(" b") == "b";
  }
}
