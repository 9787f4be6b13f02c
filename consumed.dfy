/** What each parser of the journal grammar consumes: every parser leaves a
    suffix of its input, so what it read is the prefix before it. This
    pins down the shape of a record `change_item` accepts
    (src/taskdb/undodata.rs:151-160): it ends with a dash and a newline. */
module Consumed {
  import opened Base
  import opened Json
  import opened UndoData

  /** `r` is what is left of `i` after some prefix was consumed. */
  predicate Suffix(r: Bytes, i: Bytes) {
    |r| <= |i| && i[|i| - |r|..] == r
  }

  lemma SuffixTrans(a: Bytes, b: Bytes, c: Bytes)
    requires Suffix(a, b) && Suffix(b, c)
    ensures Suffix(a, c)
  {
    assert c[|c| - |a|..] == c[|c| - |b|..][|b| - |a|..];
  }

  lemma SuffixDrop(i: Bytes, k: nat)
    requires k <= |i|
    ensures Suffix(i[k..], i)
  {
  }

  lemma SpaceSuffix(i: Bytes)
    ensures Suffix(Space(i), i)
  {
    SuffixDrop(i, Span(i, Blanks));
  }

  lemma TagSuffix(i: Bytes, t: Bytes)
    ensures Tag(i, t).Some? ==> Suffix(Tag(i, t).value, i)
  {
    if Tag(i, t).Some? {
      SuffixDrop(i, |t|);
    }
  }

  lemma IntegerSuffix(i: Bytes)
    ensures Integer(i).Some? ==> Suffix(Integer(i).value.1, i)
  {
    var j := Space(i);
    SpaceSuffix(i);
    if Integer(i).Some? {
      var n := Span(j, Digits);
      assert Integer(i).value.1 == j[n..];
      SuffixDrop(j, n);
      SuffixTrans(j[n..], j, i);
    }
  }

  lemma EndOfLineSuffix(i: Bytes)
    ensures EndOfLine(i).Some? ==> Suffix(EndOfLine(i).value, i)
  {
    var j := Space(i);
    SpaceSuffix(i);
    if EndOfLine(i).Some? {
      SuffixDrop(j, 1);
      SuffixTrans(j[1..], j, i);
    }
  }

  lemma QuotedStringSuffix(sc: Scanner, i: Bytes)
    ensures QuotedString(sc, i).Some? ==> Suffix(QuotedString(sc, i).value.1, i)
  {
    if QuotedString(sc, i).Some? {
      var end := ValueEnd(sc, i[1..]);
      SuffixDrop(i, end.value + 2);
    }
  }

  lemma PairSuffix(sc: Scanner, i: Bytes)
    ensures Pair(sc, i).Some? ==> Suffix(Pair(sc, i).value.1, i)
  {
    if Pair(sc, i).Some? {
      var j := Space(i);
      SpaceSuffix(i);
      var n := Span(j, IdentBytes);
      var r1 := j[n..];
      SuffixDrop(j, n);
      SuffixTrans(r1, j, i);
      SuffixDrop(r1, 1);
      SuffixTrans(r1[1..], r1, i);
      var k := Space(r1[1..]);
      SpaceSuffix(r1[1..]);
      SuffixTrans(k, r1[1..], i);
      QuotedStringSuffix(sc, k);
      SuffixTrans(Pair(sc, i).value.1, k, i);
    }
  }

  lemma {:induction false} MorePairsSuffix(sc: Scanner, i: Bytes)
    ensures Suffix(MorePairs(sc, i).1, i)
    decreases |i|
  {
    var n := Span(i, Spaces);
    if n == 0 || Pair(sc, i[n..]).None? {
      assert MorePairs(sc, i).1 == i;
    } else {
      var r1 := Pair(sc, i[n..]).value.1;
      SuffixDrop(i, n);
      PairSuffix(sc, i[n..]);
      SuffixTrans(r1, i[n..], i);
      MorePairsSuffix(sc, r1);
      assert MorePairs(sc, i).1 == MorePairs(sc, r1).1;
      SuffixTrans(MorePairs(sc, r1).1, r1, i);
    }
  }

  lemma PairListSuffix(sc: Scanner, i: Bytes)
    ensures Suffix(PairList(sc, i).1, i)
  {
    if Pair(sc, i).Some? {
      var r1 := Pair(sc, i).value.1;
      PairSuffix(sc, i);
      MorePairsSuffix(sc, r1);
      SuffixTrans(MorePairs(sc, r1).1, r1, i);
    }
  }

  lemma AttributesSuffix(sc: Scanner, i: Bytes)
    ensures Attributes(sc, i).Some? ==> Suffix(Attributes(sc, i).value.1, i)
  {
    if Attributes(sc, i).Some? {
      var j := Space(i);
      SpaceSuffix(i);
      SuffixDrop(j, 1);
      SuffixTrans(j[1..], j, i);
      var r := PairList(sc, j[1..]).1;
      PairListSuffix(sc, j[1..]);
      SuffixTrans(r, j[1..], i);
      SuffixDrop(r, 1);
      SuffixTrans(r[1..], r, i);
    }
  }

  /** Three parsers run one after the other leave a suffix of the input. */
  lemma LineSuffix(i: Bytes, r0: Bytes, r1: Bytes, r2: Bytes)
    requires Suffix(r0, i) && Suffix(r1, r0) && Suffix(r2, r1)
    ensures Suffix(r2, i)
  {
    SuffixTrans(r1, r0, i);
    SuffixTrans(r2, r1, i);
  }

  lemma AnyFragmentSuffix(sc: Scanner, i: Bytes)
    ensures AnyFragment(sc, i).Some? ==> Suffix(AnyFragment(sc, i).value.1, i)
  {
    hide Integer, Attributes, EndOfLine, Tag;
    if FragmentTime(i).Some? {
      var r0 := Tag(i, TIME_TAG).value;
      var r1 := Integer(r0).value.1;
      TagSuffix(i, TIME_TAG);
      IntegerSuffix(r0);
      EndOfLineSuffix(r1);
      LineSuffix(i, r0, r1, EndOfLine(r1).value);
    } else if FragmentOld(sc, i).Some? {
      var r0 := Tag(i, OLD_TAG).value;
      var r1 := Attributes(sc, r0).value.1;
      TagSuffix(i, OLD_TAG);
      AttributesSuffix(sc, r0);
      EndOfLineSuffix(r1);
      LineSuffix(i, r0, r1, EndOfLine(r1).value);
    } else if FragmentNew(sc, i).Some? {
      var r0 := Tag(i, NEW_TAG).value;
      var r1 := Attributes(sc, r0).value.1;
      TagSuffix(i, NEW_TAG);
      AttributesSuffix(sc, r0);
      EndOfLineSuffix(r1);
      LineSuffix(i, r0, r1, EndOfLine(r1).value);
    }
  }

  lemma {:induction false} MoreFragmentsSuffix(sc: Scanner, i: Bytes)
    ensures Suffix(MoreFragments(sc, i).1, i)
    decreases |i|
  {
    hide AnyFragment;
    if AnyFragment(sc, i).Some? {
      var r1 := AnyFragment(sc, i).value.1;
      AnyFragmentSuffix(sc, i);
      MoreFragmentsSuffix(sc, r1);
      assert MoreFragments(sc, i).1 == MoreFragments(sc, r1).1;
      SuffixTrans(MoreFragments(sc, r1).1, r1, i);
    }
  }

  /** The steps of `change_item`: a first fragment, more fragments, a run
      of dashes, a newline. */
  lemma ChangeItemSteps(sc: Scanner, i: Bytes)
    ensures ChangeItem(sc, i).Some? ==>
      && AnyFragment(sc, Space(i)).Some?
      && var r2 := MoreFragments(sc, AnyFragment(sc, Space(i)).value.1).1;
         var n := Span(r2, Dashes);
         && 0 < n < |r2| && r2[n - 1] == DASH && r2[n] == NEWLINE
         && ChangeItem(sc, i).value.1 == r2[n + 1..]
  {
    hide AnyFragment, MoreFragments, Combine;
    if ChangeItem(sc, i).Some? {
      var r2 := MoreFragments(sc, AnyFragment(sc, Space(i)).value.1).1;
      assert InClass(r2[Span(r2, Dashes) - 1], Dashes);
    }
  }

  /** A dash and a newline right before what is left. */
  lemma EndsWithDashNewline(i: Bytes, r2: Bytes, n: nat)
    requires Suffix(r2, i) && 0 < n < |r2| && r2[n - 1] == DASH && r2[n] == NEWLINE
    ensures var r := r2[n + 1..];
      |r| + 2 <= |i| && i[|i| - |r|..] == r && i[|i| - |r| - 2..|i| - |r|] == [DASH, NEWLINE]
  {
    var r := r2[n + 1..];
    assert i[|i| - |r| - 2..|i| - |r|] == r2[n - 1..n + 1];
    assert i[|i| - |r|..] == r2[n + 1..];
  }

  /** A record is read only when a fragment starts it (after blanks), and
      what it consumes ends with a dash and a newline: the last of its
      dashes and the newline of the separator line. */
  lemma ChangeItemEnds(sc: Scanner, i: Bytes)
    ensures ChangeItem(sc, i).Some? ==> AnyFragment(sc, Space(i)).Some?
    ensures ChangeItem(sc, i).Some? ==>
      var r := ChangeItem(sc, i).value.1;
      |r| + 2 <= |i| && i[|i| - |r|..] == r && i[|i| - |r| - 2..|i| - |r|] == [DASH, NEWLINE]
  {
    ChangeItemSteps(sc, i);
    hide *;
    if ChangeItem(sc, i).Some? {
      var j := Space(i);
      var r1 := AnyFragment(sc, j).value.1;
      var r2 := MoreFragments(sc, r1).1;
      SpaceSuffix(i);
      AnyFragmentSuffix(sc, j);
      MoreFragmentsSuffix(sc, r1);
      LineSuffix(i, j, r1, r2);
      EndsWithDashNewline(i, r2, Span(r2, Dashes));
    }
  }
}
