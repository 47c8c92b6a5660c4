/**
 * The tablature renderer: which code blocks it takes (`renderTabs`) and the
 * HTML it produces for one of them (`renderTab`): a `pre` element of class
 * `tab-rendered` holding one `div` per line of the block, lines copied verbatim.
 */
module Tabs {

  import opened Strings

  // ---------------------------------------------------------------------------
  // Lines
  // ---------------------------------------------------------------------------

  function CountNewlines(s: string): nat
    decreases s
  {
    if s == [] then 0 else (if s[0] == '\n' then 1 else 0) + CountNewlines(s[1..])
  }

  /** Lines put back together with a newline between each two. */
  function JoinLines(lines: seq<string>): string
    requires lines != []
    decreases |lines|
  {
    if |lines| == 1 then lines[0] else lines[0] + "\n" + JoinLines(lines[1..])
  }

  /**
   * `s.split("\n")`: the pieces between newline characters. There is always
   * one more piece than there are newlines, pieces may be empty, and joining
   * them again gives `s`.
   */
  function SplitLines(s: string): (r: seq<string>)
    ensures |r| == CountNewlines(s) + 1
    ensures forall i :: 0 <= i < |r| ==> '\n' !in r[i]
    ensures JoinLines(r) == s
    decreases s
  {
    if s == [] then [[]]
    else
      var rest := SplitLines(s[1..]);
      if s[0] == '\n' then
        assert [s[0]] + s[1..] == s;
        [[]] + rest
      else
        assert [s[0]] + s[1..] == s;
        [[s[0]] + rest[0]] + rest[1..]
  }

  /** Splitting is the inverse of joining: lines without newlines come back unchanged. */
  lemma {:induction false} SplitJoin(lines: seq<string>)
    requires lines != []
    requires forall i :: 0 <= i < |lines| ==> '\n' !in lines[i]
    ensures SplitLines(JoinLines(lines)) == lines
    decreases |lines|, |lines[0]|, 1
  {
    if lines[0] == [] {
      if |lines| > 1 {
        SplitJoinEmptyFirst(lines);
      }
    } else {
      SplitJoinFirstChar(lines);
    }
  }

  /** A first line that is empty: the text starts with the newline that ends it. */
  lemma {:induction false} SplitJoinEmptyFirst(lines: seq<string>)
    requires |lines| > 1 && lines[0] == []
    requires forall i :: 0 <= i < |lines| ==> '\n' !in lines[i]
    ensures SplitLines(JoinLines(lines)) == lines
    decreases |lines|, |lines[0]|, 0
  {
    var tail := lines[1..];
    assert forall i :: 0 <= i < |tail| ==> '\n' !in tail[i] by {
      forall i | 0 <= i < |tail| ensures '\n' !in tail[i] {
        assert tail[i] == lines[i + 1];
      }
    }
    SplitJoin(tail);
    assert JoinLines(lines) == "\n" + JoinLines(tail);
    assert JoinLines(lines)[1..] == JoinLines(tail);
  }

  /** A first line that is not empty: the text starts with its first character. */
  lemma {:induction false} SplitJoinFirstChar(lines: seq<string>)
    requires lines != [] && lines[0] != []
    requires forall i :: 0 <= i < |lines| ==> '\n' !in lines[i]
    ensures SplitLines(JoinLines(lines)) == lines
    decreases |lines|, |lines[0]|, 0
  {
    var first := lines[0];
    var shorter := [first[1..]] + lines[1..];
    assert forall i :: 0 <= i < |shorter| ==> '\n' !in shorter[i] by {
      forall i | 0 <= i < |shorter| ensures '\n' !in shorter[i] {
        if i == 0 {
          assert shorter[0] == first[1..];
        } else {
          assert shorter[i] == lines[i];
        }
      }
    }
    SplitJoin(shorter);
    var x := JoinLines(lines);
    assert x == [first[0]] + JoinLines(shorter) by {
      if |lines| == 1 {
        assert shorter == [first[1..]];
      } else {
        assert shorter[1..] == lines[1..];
      }
    }
    assert x[0] == first[0] && x[1..] == JoinLines(shorter);
    assert first[0] != '\n' by {
      assert first[0] in first;
    }
    assert SplitLines(x) == [[x[0]] + SplitLines(x[1..])[0]] + SplitLines(x[1..])[1..];
    assert [first[0]] + first[1..] == first;
    assert shorter[1..] == lines[1..];
    assert lines == [first] + lines[1..];
  }

  // ---------------------------------------------------------------------------
  // The rendered tablature
  // ---------------------------------------------------------------------------

  const TabOpen: string := "<pre class=\"tab-rendered\">"
  const TabClose: string := "</pre>"

  /** One line as a `div`, copied without escaping. */
  function Div(line: string): string
  {
    "<div>" + line + "</div>"
  }

  /** The `div`s of the lines, in order. */
  function Divs(lines: seq<string>): string
    decreases |lines|
  {
    if lines == [] then [] else Divs(lines[..|lines| - 1]) + Div(lines[|lines| - 1])
  }

  /** What `renderTab` returns for a block's text. */
  function TabHtml(tabText: string): string
  {
    TabOpen + Divs(SplitLines(tabText)) + TabClose
  }

  /** The rendered block is never empty: `renderTabs` always replaces a selected block. */
  lemma TabHtmlNotEmpty(tabText: string)
    ensures |TabHtml(tabText)| >= |TabOpen| + |TabClose| + |Div("")|
  {
    var lines := SplitLines(tabText);
    DivsLength(lines);
  }

  lemma {:induction false} DivsLength(lines: seq<string>)
    ensures |Divs(lines)| >= |lines| * |Div("")|
    decreases |lines|
  {
    if lines != [] {
      DivsLength(lines[..|lines| - 1]);
    }
  }

  lemma {:induction false} DivsConcat(a: seq<string>, b: seq<string>)
    ensures Divs(a + b) == Divs(a) + Divs(b)
    decreases |b|
  {
    if b == [] {
      assert a + b == a;
    } else {
      var n := |b| - 1;
      assert (a + b)[..|a + b| - 1] == a + b[..n];
      DivsConcat(a, b[..n]);
    }
  }

  /**
   * Line `i` of the block is the `i`-th `div` of the output: it sits right
   * after the opening tag and the `div`s of the lines before it.
   */
  lemma LineRendered(tabText: string, i: nat)
    requires i < |SplitLines(tabText)|
    ensures var lines := SplitLines(tabText);
            OccursAt(TabHtml(tabText), |TabOpen| + |Divs(lines[..i])|, Div(lines[i]))
  {
    DivAt(SplitLines(tabText), i);
  }

  lemma Regroup(a: string, b: string, c: string, d: string, e: string)
    ensures a + (b + (c + d)) + e == (a + b) + c + (d + e)
  {
  }

  lemma DivAt(lines: seq<string>, i: nat)
    requires i < |lines|
    ensures OccursAt(TabOpen + Divs(lines) + TabClose, |TabOpen| + |Divs(lines[..i])|, Div(lines[i]))
  {
    var x, before, after := lines[i], lines[..i], lines[i + 1..];
    assert lines == before + ([x] + after);
    DivsConcat(before, [x] + after);
    DivsConcat([x], after);
    assert [x][..0] == [];
    var d := Divs(before) + (Div(x) + Divs(after));
    assert Divs(lines) == d;
    Regroup(TabOpen, Divs(before), Div(x), Divs(after), TabClose);
    OccursInMiddle(TabOpen + Divs(before), Div(x), Divs(after) + TabClose);
  }

  /** An empty line (two newlines in a row) is an empty piece, so it renders as an empty `div`. */
  lemma {:induction false} EmptyLineAt(before: string, after: string)
    ensures var lines := SplitLines(before + "\n\n" + after);
            CountNewlines(before) + 1 < |lines| && lines[CountNewlines(before) + 1] == []
    decreases before
  {
    var s := before + "\n\n" + after;
    if before == [] {
      assert s == "\n\n" + after;
      assert s[1..] == "\n" + after;
      assert (s[1..])[1..] == after;
    } else {
      assert s[1..] == before[1..] + "\n\n" + after;
      EmptyLineAt(before[1..], after);
    }
  }

  // ---------------------------------------------------------------------------
  // Which code blocks are tablature
  // ---------------------------------------------------------------------------

  /**
   * A `pre code` block is rendered as tablature when its text is not empty
   * and its class list mentions `language-` followed by the tablature marker,
   * anywhere in the attribute.
   */
  function IsTabBlock(text: string, className: string, tabMarker: string): (r: bool)
    ensures r <==>
              text != [] && exists i :: 0 <= i <= |className| && OccursAt(className, i, "language-" + tabMarker)
  {
    text != [] && Includes(className, "language-" + tabMarker)
  }
}
