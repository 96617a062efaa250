/** Facts about the body text that `readFromStream` assembles from the lines
    the reader hands over. */
module BodyText {
  import opened Request

  /** A text with no line terminator in it, as every line `readLine`
      returns is. */
  predicate NoLineTerminator(s: string) {
    forall i :: 0 <= i < |s| ==> s[i] != '\n' && s[i] != '\r'
  }

  /** Joining two runs of lines is joining their joined texts. */
  lemma {:induction false} ConcatAppend(a: seq<string>, b: seq<string>)
    ensures Concat(a + b) == Concat(a) + Concat(b)
    decreases |b|
  {
    if |b| == 0 {
      assert a + b == a;
    } else {
      var b' := b[..|b| - 1];
      assert (a + b)[..|a + b| - 1] == a + b';
      assert (a + b)[|a + b| - 1] == b[|b| - 1];
      ConcatAppend(a, b');
    }
  }

  /** The body is empty exactly when every line is empty, so a response of
      blank lines reaches the extraction as empty text. */
  lemma {:induction false} ConcatIsEmptyIff(lines: seq<string>)
    ensures Concat(lines) == "" <==> forall i :: 0 <= i < |lines| ==> lines[i] == ""
    decreases |lines|
  {
    if |lines| != 0 {
      var init := lines[..|lines| - 1];
      ConcatIsEmptyIff(init);
      assert forall i :: 0 <= i < |init| ==> init[i] == lines[i];
    }
  }

  /** The body holds every line, unchanged and in order: line k sits
      between the lines before it and the lines after it. */
  lemma LineSitsBetweenItsNeighbours(lines: seq<string>, k: nat)
    requires k < |lines|
    ensures Concat(lines) == Concat(lines[..k]) + lines[k] + Concat(lines[k + 1..])
  {
    var before, line, after := lines[..k], lines[k], lines[k + 1..];
    SplitAround(lines, k);
    ConcatAppend(before, [line] + after);
    ConcatAppend([line], after);
    assert Concat([line]) == line by {
      assert [line][..0] == [];
    }
    assert Concat(before) + (line + Concat(after)) == Concat(before) + line + Concat(after);
  }

  /** Lines free of terminators join to a body free of terminators: the
      terminators the reader removed do not come back. */
  lemma {:induction false} ConcatKeepsNoLineTerminator(lines: seq<string>)
    requires forall i :: 0 <= i < |lines| ==> NoLineTerminator(lines[i])
    ensures NoLineTerminator(Concat(lines))
    decreases |lines|
  {
    if |lines| != 0 {
      var init := lines[..|lines| - 1];
      assert forall i :: 0 <= i < |init| ==> init[i] == lines[i];
      ConcatKeepsNoLineTerminator(init);
      var c := Concat(lines);
      var p := Concat(init);
      var last := lines[|lines| - 1];
      assert NoLineTerminator(last);
      forall i | 0 <= i < |c|
        ensures c[i] != '\n' && c[i] != '\r'
      {
        if i < |p| {
          assert c[i] == p[i];
        } else {
          assert c[i] == last[i - |p|];
        }
      }
    }
  }

  lemma SplitAround<T>(s: seq<T>, k: nat)
    requires k < |s|
    ensures s == s[..k] + ([s[k]] + s[k + 1..])
  {
    assert s[k..] == [s[k]] + s[k + 1..];
    assert s == s[..k] + s[k..];
  }
}
