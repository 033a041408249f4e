/** `MainActivity.decodeRecognizerOutput`: greedy decoding of the
    recognizer's per-timestep class scores.  Each timestep picks the class
    with the highest score (the first one on a tie); a class is appended to
    the text when it names an entry of the alphabet and differs from the
    class appended last.  Scores are Java floats, taken here as reals. */
module GreedyDecoder {
  import opened Outcomes

  /** The characters of `MainActivity.alphabet`, in class order: ten
      digits, the upper- and lower-case Latin letters and six punctuation
      characters. */
  const AlphabetChars: string := Digits + UpperCase + LowerCase + ".,- /_"

  const Digits: string := "0123456789"
  const UpperCase: string := "ABCDEFGHIJKLMNOPQRSTUVWXYZ"
  const LowerCase: string := "abcdefghijklmnopqrstuvwxyz"

  /** `MainActivity.alphabet`: one single-character string per class. */
  const Alphabet: seq<string> := seq(|AlphabetChars|, i requires 0 <= i < |AlphabetChars| => [AlphabetChars[i]])

  // ---------------------------------------------------------------- argmax

  /** m is the first index of a largest score of `row`. */
  predicate IsFirstMax(row: seq<real>, m: int) {
    && 0 <= m < |row|
    && (forall i :: 0 <= i < |row| ==> row[i] <= row[m])
    && (forall i :: 0 <= i < m ==> row[i] < row[m])
  }

  /** A row has only one first maximum. */
  lemma FirstMaxUnique(row: seq<real>, a: int, b: int)
    requires IsFirstMax(row, a) && IsFirstMax(row, b)
    ensures a == b
  {
    assert row[a] == row[b];
  }

  /** The first maximum, by recursion on the row's prefix. */
  function FirstMax(row: seq<real>): (m: int)
    requires |row| > 0
    ensures IsFirstMax(row, m)
  {
    if |row| == 1 then 0
    else
      var m := FirstMax(row[..|row| - 1]);
      if row[|row| - 1] > row[m] then |row| - 1 else m
  }

  /** The inner scan of the source: start at index 0 and move only on a
      strictly larger score. */
  method ArgMax(row: seq<real>) returns (m: int)
    requires |row| > 0
    ensures IsFirstMax(row, m)
  {
    m := 0;
    var best := row[0];
    for i := 1 to |row|
      invariant 0 <= m < i && best == row[m]
      invariant forall j :: 0 <= j < i ==> row[j] <= best
      invariant forall j :: 0 <= j < m ==> row[j] < best
    {
      if row[i] > best {
        best := row[i];
        m := i;
      }
    }
  }

  predicate NoEmptyRow(output: seq<seq<real>>) {
    forall t :: 0 <= t < |output| ==> |output[t]| > 0
  }

  /** The class picked at every timestep. */
  function Labels(output: seq<seq<real>>): (ls: seq<int>)
    requires NoEmptyRow(output)
    ensures |ls| == |output|
    ensures forall t :: 0 <= t < |output| ==> IsFirstMax(output[t], ls[t])
  {
    seq(|output|, t requires 0 <= t < |output| => FirstMax(output[t]))
  }

  // ---------------------------------------------------------------- collapsing

  /** The labels that name an alphabet entry, in order; any other class is
      dropped. */
  function InTable(s: seq<int>, n: int): (r: seq<int>)
    ensures |r| <= |s|
    ensures forall i :: 0 <= i < |r| ==> r[i] < n
  {
    if |s| == 0 then []
    else
      var last := s[|s| - 1];
      InTable(s[..|s| - 1], n) + (if last < n then [last] else [])
  }

  ghost predicate NoAdjacentRepeats(s: seq<int>) {
    forall i :: 0 <= i < |s| - 1 ==> s[i] != s[i + 1]
  }

  /** Every run of equal consecutive labels reduced to one. */
  function Dedup(s: seq<int>): (r: seq<int>)
    ensures |r| <= |s| && (|r| == 0 <==> |s| == 0)
    ensures |s| > 0 ==> r[|r| - 1] == s[|s| - 1]
  {
    if |s| == 0 then []
    else
      var init := s[..|s| - 1];
      var last := s[|s| - 1];
      if |init| > 0 && init[|init| - 1] == last then Dedup(init) else Dedup(init) + [last]
  }

  /** Dropping the blanks keeps exactly the labels below n. */
  lemma {:induction false} InTableMembers(s: seq<int>, n: int)
    ensures forall x :: x in InTable(s, n) <==> x in s && x < n
    decreases |s|
  {
    if |s| > 0 {
      var init := s[..|s| - 1];
      InTableMembers(init, n);
      assert s == init + [s[|s| - 1]];
    }
  }

  /** Collapsing runs loses no label and invents none. */
  lemma {:induction false} DedupMembers(s: seq<int>)
    ensures forall x :: x in Dedup(s) <==> x in s
    decreases |s|
  {
    if |s| > 0 {
      var init := s[..|s| - 1];
      DedupMembers(init);
      assert s == init + [s[|s| - 1]];
      if |init| > 0 {
        assert init[|init| - 1] in init;
      }
    }
  }

  /** The collapse has no two equal neighbours. */
  lemma {:induction false} DedupRepeatFree(s: seq<int>)
    ensures NoAdjacentRepeats(Dedup(s))
    decreases |s|
  {
    if |s| > 0 {
      var init := s[..|s| - 1];
      DedupRepeatFree(init);
      var d := Dedup(init);
      var r := Dedup(s);
      forall i | 0 <= i < |r| - 1
        ensures r[i] != r[i + 1]
      {
        if r != d {
          assert r == d + [s[|s| - 1]];
          if i + 1 == |r| - 1 {
            assert r[i] == init[|init| - 1];
          } else {
            assert r[i] == d[i] && r[i + 1] == d[i + 1];
          }
        }
      }
    }
  }

  /** A sequence without adjacent repeats is its own collapse. */
  lemma {:induction false} DedupKeepsRepeatFree(s: seq<int>)
    requires NoAdjacentRepeats(s)
    ensures Dedup(s) == s
    decreases |s|
  {
    if |s| > 0 {
      var init := s[..|s| - 1];
      assert NoAdjacentRepeats(init) by {
        forall i | 0 <= i < |init| - 1
          ensures init[i] != init[i + 1]
        {
          assert init[i] == s[i] && init[i + 1] == s[i + 1];
        }
      }
      DedupKeepsRepeatFree(init);
      assert init + [s[|s| - 1]] == s;
    }
  }

  /** Collapsing twice is collapsing once. */
  lemma DedupIdempotent(s: seq<int>)
    ensures Dedup(Dedup(s)) == Dedup(s)
  {
    DedupRepeatFree(s);
    DedupKeepsRepeatFree(Dedup(s));
  }

  // ---------------------------------------------------------------- text

  predicate Spellable(alphabet: seq<string>, labels: seq<int>) {
    forall i :: 0 <= i < |labels| ==> 0 <= labels[i] < |alphabet|
  }

  /** The alphabet entries of `labels`, concatenated. */
  function Spell(alphabet: seq<string>, labels: seq<int>): string
    requires Spellable(alphabet, labels)
  {
    if |labels| == 0 then ""
    else Spell(alphabet, labels[..|labels| - 1]) + alphabet[labels[|labels| - 1]]
  }

  /** With one character per entry, the text has one character per label
      and the i-th character is the i-th label's entry. */
  lemma {:induction false} SpellSingleChars(alphabet: seq<string>, labels: seq<int>)
    requires Spellable(alphabet, labels)
    requires forall k :: 0 <= k < |alphabet| ==> |alphabet[k]| == 1
    ensures |Spell(alphabet, labels)| == |labels|
    ensures forall i :: 0 <= i < |labels| ==> Spell(alphabet, labels)[i] == alphabet[labels[i]][0]
    decreases |labels|
  {
    if |labels| > 0 {
      SpellSingleChars(alphabet, labels[..|labels| - 1]);
    }
  }

  /** The source's alphabet has 68 entries of one character each, so its
      text has one character per appended label. */
  lemma AlphabetSpelling(labels: seq<int>)
    requires Spellable(Alphabet, labels)
    ensures |Alphabet| == 68
    ensures |Spell(Alphabet, labels)| == |labels|
    ensures forall i :: 0 <= i < |labels| ==> Spell(Alphabet, labels)[i] == AlphabetChars[labels[i]]
  {
    SpellSingleChars(Alphabet, labels);
  }

  // ---------------------------------------------------------------- the decoder as written

  /** What the source appends: the labels that name an alphabet entry,
      consecutive equal ones collapsed.  A label outside the alphabet (the
      blank) leaves `lastIndex` alone, so it does not separate two equal
      labels. */
  function Decoded(output: seq<seq<real>>, n: int): seq<int>
    requires NoEmptyRow(output)
  {
    Dedup(InTable(Labels(output), n))
  }

  /** The source's output never holds a blank nor two equal neighbours,
      holds exactly the picked classes that name an entry, and is no longer
      than the number of timesteps. */
  lemma DecodedShape(output: seq<seq<real>>, n: int)
    requires NoEmptyRow(output)
    ensures |Decoded(output, n)| <= |output|
    ensures |output| == 0 ==> Decoded(output, n) == []
    ensures NoAdjacentRepeats(Decoded(output, n))
    ensures forall x :: x in Decoded(output, n) <==> x in Labels(output) && x < n
  {
    var kept := InTable(Labels(output), n);
    DedupRepeatFree(kept);
    DedupMembers(kept);
    InTableMembers(Labels(output), n);
  }

  /** The label appended last, or the source's initial `lastIndex` of -1. */
  function LastOr(e: seq<int>): int {
    if |e| == 0 then -1 else e[|e| - 1]
  }

  /** `decodeRecognizerOutput(output, alphabet)`.  An empty timestep fails
      on `timestep[0]`. */
  method DecodeRecognizerOutput(output: seq<seq<real>>, alphabet: seq<string>) returns (r: Result<string>)
    ensures r.Ok? <==> NoEmptyRow(output)
    ensures r.Err? ==> r.error == IndexOutOfBounds
    ensures r.Ok? ==>
      var ls := Decoded(output, |alphabet|);
      Spellable(alphabet, ls) && r.value == Spell(alphabet, ls)
  {
    var text := "";
    var lastIndex := -1;
    ghost var emitted: seq<int> := [];
    ghost var labels: seq<int> := [];
    for t := 0 to |output|
      invariant NoEmptyRow(output[..t]) && labels == Labels(output[..t])
      invariant emitted == Dedup(InTable(labels, |alphabet|))
      invariant Spellable(alphabet, emitted) && text == Spell(alphabet, emitted)
      invariant lastIndex == LastOr(emitted)
    {
      if |output[t]| == 0 {
        assert !NoEmptyRow(output) by {
          assert |output[t]| == 0;
        }
        return Err(IndexOutOfBounds);
      }
      var maxIdx := ArgMax(output[t]);
      LabelsStep(output, t, maxIdx);
      text, lastIndex, emitted := WrittenStep(alphabet, labels, emitted, text, lastIndex, maxIdx);
      labels := labels + [maxIdx];
    }
    assert output[..|output|] == output;
    return Ok(text);
  }

  /** The body of the source's loop after the argmax: append the entry of
      `maxIdx` unless it is a blank or equals the label appended last.
      `emitted` is what has been appended so far. */
  method WrittenStep(alphabet: seq<string>, ghost labels: seq<int>, ghost emitted: seq<int>,
                     text: string, lastIndex: int, maxIdx: int)
    returns (text': string, lastIndex': int, ghost emitted': seq<int>)
    requires maxIdx >= 0 && emitted == Dedup(InTable(labels, |alphabet|))
    requires Spellable(alphabet, emitted) && text == Spell(alphabet, emitted)
    requires lastIndex == LastOr(emitted)
    ensures emitted' == Dedup(InTable(labels + [maxIdx], |alphabet|))
    ensures Spellable(alphabet, emitted') && text' == Spell(alphabet, emitted')
    ensures lastIndex' == LastOr(emitted')
  {
    DecodedStep(labels, maxIdx, |alphabet|, lastIndex);
    if maxIdx != lastIndex && maxIdx < |alphabet| {
      SpellStep(alphabet, emitted, maxIdx);
      text' := text + alphabet[maxIdx];
      lastIndex' := maxIdx;
      emitted' := emitted + [maxIdx];
    } else {
      text', lastIndex', emitted' := text, lastIndex, emitted;
    }
  }

  /** Appending the pick of timestep t extends the labels of the first t. */
  lemma LabelsStep(output: seq<seq<real>>, t: int, m: int)
    requires 0 <= t < |output| && NoEmptyRow(output[..t]) && |output[t]| > 0
    requires IsFirstMax(output[t], m)
    ensures NoEmptyRow(output[..t + 1])
    ensures Labels(output[..t + 1]) == Labels(output[..t]) + [m]
  {
    FirstMaxUnique(output[t], m, FirstMax(output[t]));
    assert output[..t + 1][..t] == output[..t];
  }

  lemma InTableStep(s: seq<int>, k: int, n: int)
    ensures InTable(s + [k], n) == if k < n then InTable(s, n) + [k] else InTable(s, n)
  {
    assert (s + [k])[..|s|] == s;
  }

  lemma DedupStep(s: seq<int>, k: int)
    ensures Dedup(s + [k]) == if |s| > 0 && s[|s| - 1] == k then Dedup(s) else Dedup(s) + [k]
  {
    assert (s + [k])[..|s|] == s;
  }

  /** One timestep of the source's loop: the pick k is appended exactly when
      it names an entry and differs from the label appended last. */
  lemma {:induction false} DecodedStep(labels: seq<int>, k: int, n: int, last: int)
    requires k >= 0
    requires last == LastOr(Dedup(InTable(labels, n)))
    ensures var e := Dedup(InTable(labels, n));
      Dedup(InTable(labels + [k], n)) == if k != last && k < n then e + [k] else e
  {
    var f := InTable(labels, n);
    InTableStep(labels, k, n);
    if k < n {
      DedupStep(f, k);
      if |f| > 0 {
        assert Dedup(f)[|Dedup(f)| - 1] == f[|f| - 1];
      }
    }
  }

  lemma {:induction false} SpellStep(alphabet: seq<string>, labels: seq<int>, k: int)
    requires Spellable(alphabet, labels) && 0 <= k < |alphabet|
    ensures Spellable(alphabet, labels + [k])
    ensures Spell(alphabet, labels + [k]) == Spell(alphabet, labels) + alphabet[k]
  {
    assert (labels + [k])[..|labels|] == labels;
  }

  // ---------------------------------------------------------------- textbook greedy CTC

  /** Greedy CTC as usually defined: collapse runs of the raw picks first,
      then drop the blanks, so a blank between two equal labels keeps both. */
  function CtcDecoded(output: seq<seq<real>>, n: int): seq<int>
    requires NoEmptyRow(output)
  {
    InTable(Dedup(Labels(output)), n)
  }

  /** Greedy CTC holds the same classes, but may repeat one across a blank. */
  lemma CtcDecodedMembers(output: seq<seq<real>>, n: int)
    requires NoEmptyRow(output)
    ensures forall x :: x in CtcDecoded(output, n) <==> x in Labels(output) && x < n
  {
    DedupMembers(Labels(output));
    InTableMembers(Dedup(Labels(output)), n);
  }

  /** One timestep of greedy CTC: the pick k is appended exactly when it
      names an entry and differs from the previous timestep's pick. */
  lemma {:induction false} CtcStep(labels: seq<int>, k: int, n: int, previous: int)
    requires k >= 0 && previous == if |labels| == 0 then -1 else labels[|labels| - 1]
    ensures var e := InTable(Dedup(labels), n);
      InTable(Dedup(labels + [k]), n) == if k != previous && k < n then e + [k] else e
  {
    DedupStep(labels, k);
    InTableStep(Dedup(labels), k, n);
  }

  /** The decoder with the repeat test made against the previous timestep's
      pick rather than the last appended label. */
  method CtcGreedyDecode(output: seq<seq<real>>, alphabet: seq<string>) returns (r: Result<string>)
    ensures r.Ok? <==> NoEmptyRow(output)
    ensures r.Err? ==> r.error == IndexOutOfBounds
    ensures r.Ok? ==>
      var ls := CtcDecoded(output, |alphabet|);
      Spellable(alphabet, ls) && r.value == Spell(alphabet, ls)
  {
    var text := "";
    var previous := -1;
    ghost var emitted: seq<int> := [];
    ghost var labels: seq<int> := [];
    for t := 0 to |output|
      invariant NoEmptyRow(output[..t]) && labels == Labels(output[..t])
      invariant emitted == InTable(Dedup(labels), |alphabet|)
      invariant Spellable(alphabet, emitted) && text == Spell(alphabet, emitted)
      invariant previous == if t == 0 then -1 else labels[t - 1]
    {
      if |output[t]| == 0 {
        assert !NoEmptyRow(output) by {
          assert |output[t]| == 0;
        }
        return Err(IndexOutOfBounds);
      }
      var maxIdx := ArgMax(output[t]);
      LabelsStep(output, t, maxIdx);
      text, emitted := CtcTimestep(alphabet, labels, emitted, text, previous, maxIdx);
      labels := labels + [maxIdx];
      previous := maxIdx;
    }
    assert output[..|output|] == output;
    return Ok(text);
  }

  /** One timestep of greedy CTC after the argmax: append the entry of
      `maxIdx` unless it is a blank or repeats the previous timestep's pick. */
  method CtcTimestep(alphabet: seq<string>, ghost labels: seq<int>, ghost emitted: seq<int>,
                     text: string, previous: int, maxIdx: int)
    returns (text': string, ghost emitted': seq<int>)
    requires maxIdx >= 0 && emitted == InTable(Dedup(labels), |alphabet|)
    requires Spellable(alphabet, emitted) && text == Spell(alphabet, emitted)
    requires previous == if |labels| == 0 then -1 else labels[|labels| - 1]
    ensures emitted' == InTable(Dedup(labels + [maxIdx]), |alphabet|)
    ensures Spellable(alphabet, emitted') && text' == Spell(alphabet, emitted')
  {
    CtcStep(labels, maxIdx, |alphabet|, previous);
    text', emitted' := text, emitted;
    if maxIdx != previous && maxIdx < |alphabet| {
      SpellStep(alphabet, emitted, maxIdx);
      text' := text + alphabet[maxIdx];
      emitted' := emitted + [maxIdx];
    }
  }

  // ---------------------------------------------------------------- examples

  /** A timestep whose only score above zero is class k. */
  function OneHot(k: nat, n: nat): (row: seq<real>)
    requires k < n
    ensures |row| == n && IsFirstMax(row, k)
  {
    seq(n, i => if i == k then 1.0 else 0.0)
  }

  function OneHotRows(ks: seq<nat>, n: nat): (output: seq<seq<real>>)
    requires forall i :: 0 <= i < |ks| ==> ks[i] < n
    ensures |output| == |ks| && NoEmptyRow(output)
  {
    seq(|ks|, i requires 0 <= i < |ks| => OneHot(ks[i], n))
  }

  /** One-hot timesteps are decoded to their hot classes. */
  lemma OneHotLabels(ks: seq<nat>, n: nat)
    requires forall i :: 0 <= i < |ks| ==> ks[i] < n
    ensures Labels(OneHotRows(ks, n)) == ks
  {
    var output := OneHotRows(ks, n);
    forall t | 0 <= t < |ks|
      ensures Labels(output)[t] == ks[t]
    {
      FirstMaxUnique(output[t], Labels(output)[t], ks[t]);
    }
  }

  /** `A, blank, A` with the alphabet {A} and the blank as class 1: the
      source appends A once. */
  lemma BlankDoesNotSeparate()
    ensures Decoded(OneHotRows([0, 1, 0], 2), 1) == [0]
  {
    OneHotLabels([0, 1, 0], 2);
    WrittenSteps([0, 1, 0], 1, [[], [0], [0], [0]]);
  }

  /** The same timesteps under greedy CTC append A twice. */
  lemma BlankSeparatesUnderCtc()
    ensures CtcDecoded(OneHotRows([0, 1, 0], 2), 1) == [0, 0]
  {
    OneHotLabels([0, 1, 0], 2);
    CtcSteps([0, 1, 0], 1, [[], [0], [0], [0, 0]]);
  }

  /** The two texts of that example: "A" from the source, "AA" from greedy CTC. */
  lemma SpellOneLetter()
    ensures Spell(["A"], [0]) == "A" && Spell(["A"], [0, 0]) == "AA"
  {
    SpellStep(["A"], [], 0);
    SpellStep(["A"], [0], 0);
  }

  /** Labels A A blank A B B blank blank over the source's alphabet, the
      blank being class 68: the source appends A B. */
  lemma RepeatAcrossBlankWritten()
    ensures Dedup(InTable([10, 10, 68, 10, 11, 11, 68, 68], 68)) == [10, 11]
  {
    WrittenSteps([10, 10, 68, 10, 11, 11, 68, 68], 68,
      [[], [10], [10], [10], [10], [10, 11], [10, 11], [10, 11], [10, 11]]);
  }

  /** The same labels under greedy CTC give A A B. */
  lemma RepeatAcrossBlankCtc()
    ensures InTable(Dedup([10, 10, 68, 10, 11, 11, 68, 68]), 68) == [10, 10, 11]
  {
    CtcSteps([10, 10, 68, 10, 11, 11, 68, 68], 68,
      [[], [10], [10], [10], [10, 10], [10, 10, 11], [10, 10, 11], [10, 10, 11], [10, 10, 11]]);
  }

  /** Class 10 of the source's alphabet is "A" and class 11 is "B". */
  lemma SpellAB()
    ensures |Alphabet| == 68
    ensures Spell(Alphabet, [10, 11]) == "AB"
    ensures Spell(Alphabet, [10, 10, 11]) == "AAB"
  {
    AlphabetSpelling([10, 11]);
    AlphabetSpelling([10, 10, 11]);
    assert AlphabetChars[10] == 'A' && AlphabetChars[11] == 'B';
    var ab, aab := Spell(Alphabet, [10, 11]), Spell(Alphabet, [10, 10, 11]);
    assert ab[0] == 'A' && ab[1] == 'B';
    assert aab[0] == 'A' && aab[1] == 'A' && aab[2] == 'B';
  }

  /** A claimed trace of the source's loop: `trace[t]` is what it has
      appended after t timesteps, each step following the source's rule. */
  predicate WrittenTrace(ks: seq<int>, n: int, trace: seq<seq<int>>) {
    && |trace| == |ks| + 1 && trace[0] == []
    && forall t :: 0 <= t < |ks| ==>
         var e := trace[t];
         var last := LastOr(e);
         trace[t + 1] == if ks[t] != last && ks[t] < n then e + [ks[t]] else e
  }

  /** A trace that follows the source's rule ends in what it decodes. */
  lemma {:induction false} WrittenSteps(ks: seq<int>, n: int, trace: seq<seq<int>>)
    requires forall t :: 0 <= t < |ks| ==> ks[t] >= 0
    requires WrittenTrace(ks, n, trace)
    ensures Dedup(InTable(ks, n)) == trace[|ks|]
  {
    for t := 0 to |ks|
      invariant Dedup(InTable(ks[..t], n)) == trace[t]
    {
      DecodedStep(ks[..t], ks[t], n, LastOr(trace[t]));
      PrefixStep(ks, t);
    }
    assert ks[..|ks|] == ks;
  }

  /** A claimed trace of greedy CTC, comparing each pick with the one before. */
  predicate CtcTrace(ks: seq<int>, n: int, trace: seq<seq<int>>) {
    && |trace| == |ks| + 1 && trace[0] == []
    && forall t :: 0 <= t < |ks| ==>
         trace[t + 1] == if ks[t] != Previous(ks, t) && ks[t] < n then trace[t] + [ks[t]] else trace[t]
  }

  /** The pick before timestep t, or -1 at the first. */
  function Previous(ks: seq<int>, t: int): int
    requires 0 <= t <= |ks|
  {
    if t == 0 then -1 else ks[t - 1]
  }

  /** A trace that follows the greedy CTC rule ends in what it decodes. */
  lemma {:induction false} CtcSteps(ks: seq<int>, n: int, trace: seq<seq<int>>)
    requires forall t :: 0 <= t < |ks| ==> ks[t] >= 0
    requires CtcTrace(ks, n, trace)
    ensures InTable(Dedup(ks), n) == trace[|ks|]
  {
    for t := 0 to |ks|
      invariant InTable(Dedup(ks[..t]), n) == trace[t]
    {
      CtcStep(ks[..t], ks[t], n, Previous(ks, t));
      PrefixStep(ks, t);
    }
    assert ks[..|ks|] == ks;
  }

  lemma PrefixStep(ks: seq<int>, t: int)
    requires 0 <= t < |ks|
    ensures ks[..t + 1] == ks[..t] + [ks[t]]
  {
  }
}
