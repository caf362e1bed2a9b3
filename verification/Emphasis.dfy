/**
 * The emphasis markup of TypewriterText's `renderText`: the content is split
 * on every `**` (JavaScript's `String.prototype.split` with a two-character
 * separator, scanning left to right for non-overlapping matches) and every
 * odd-indexed part is shown emphasised.
 */
module Emphasis {

  /** The delimiter `**` starts at index k of s. */
  predicate DelimAt(s: string, k: nat)
  {
    k + 2 <= |s| && s[k] == '*' && s[k + 1] == '*'
  }

  /** s contains `**` somewhere. */
  predicate ContainsDelim(s: string)
  {
    exists k: nat | k < |s| :: DelimAt(s, k)
  }

  /** s ends with a `*`. */
  predicate EndsWithStar(s: string)
  {
    |s| > 0 && s[|s| - 1] == '*'
  }

  /**
   * `content.split('**')`. The first part is always a prefix of the content:
   * the characters before the first delimiter.
   */
  function Split(s: string): (parts: seq<string>)
    ensures |parts| >= 1
    ensures |parts[0]| <= |s| && parts[0] == s[..|parts[0]|]
    decreases |s|
  {
    if s == [] then [""]
    else if DelimAt(s, 0) then [""] + Split(s[2..])
    else
      var rest := Split(s[1..]);
      [[s[0]] + rest[0]] + rest[1..]
  }

  /** `parts.join('**')`, the inverse of Split. */
  function Join(parts: seq<string>): string
    requires |parts| >= 1
  {
    if |parts| == 1 then parts[0] else parts[0] + "**" + Join(parts[1..])
  }

  /** The number of non-overlapping `**` a left-to-right scan finds in s. */
  function CountDelims(s: string): nat
    decreases |s|
  {
    if |s| < 2 then 0
    else if DelimAt(s, 0) then 1 + CountDelims(s[2..])
    else CountDelims(s[1..])
  }

  /** How one part of the split is shown. */
  datatype Span = Plain(text: string) | Strong(text: string)

  /**
   * `renderText(content)`: one span per part of the split, emphasised exactly
   * at the odd indices.
   */
  function Render(content: string): (spans: seq<Span>)
    ensures |spans| == |Split(content)|
    ensures forall k :: 0 <= k < |spans| ==> spans[k].text == Split(content)[k]
    ensures forall k :: 0 <= k < |spans| ==> (spans[k].Strong? <==> k % 2 == 1)
  {
    var parts := Split(content);
    seq(|parts|, k requires 0 <= k < |parts| =>
      if k % 2 == 1 then Strong(parts[k]) else Plain(parts[k]))
  }

  /** The texts of the spans, in order. */
  function Texts(spans: seq<Span>): (texts: seq<string>)
    ensures |texts| == |spans|
    ensures forall k :: 0 <= k < |spans| ==> texts[k] == spans[k].text
  {
    seq(|spans|, k requires 0 <= k < |spans| => spans[k].text)
  }

  // ---------------------------------------------------------------------------
  // Properties of the split

  lemma {:induction false} JoinExtendFirst(x: string, parts: seq<string>)
    requires |parts| >= 1
    ensures Join([x + parts[0]] + parts[1..]) == x + Join(parts)
  {
    var q := [x + parts[0]] + parts[1..];
    assert q[1..] == parts[1..];
  }

  /** Joining the parts with `**` gives back the content exactly. */
  lemma {:induction false} SplitJoin(s: string)
    ensures Join(Split(s)) == s
    decreases |s|
  {
    if s == [] {
    } else if DelimAt(s, 0) {
      SplitJoin(s[2..]);
      var parts := Split(s);
      assert parts[1..] == Split(s[2..]);
      assert s == "**" + s[2..];
    } else {
      var rest := Split(s[1..]);
      SplitJoin(s[1..]);
      JoinExtendFirst([s[0]], rest);
      assert s == [s[0]] + s[1..];
    }
  }

  lemma ConsNoDelim(c: char, t: string)
    requires !ContainsDelim(t)
    requires c == '*' ==> t == [] || t[0] != '*'
    ensures !ContainsDelim([c] + t)
  {
    var u := [c] + t;
    forall k: nat | DelimAt(u, k) ensures false {
      if k > 0 {
        assert DelimAt(t, k - 1);
      }
    }
  }

  /** No part of a list contains `**`. */
  predicate NoPartHasDelim(parts: seq<string>)
  {
    forall k :: 0 <= k < |parts| ==> !ContainsDelim(parts[k])
  }

  lemma NoPartHasDelimCons(x: string, parts: seq<string>)
    requires !ContainsDelim(x) && NoPartHasDelim(parts)
    ensures NoPartHasDelim([x] + parts)
  {
  }

  /** No part of the split contains `**`. */
  lemma {:induction false} SplitPartsHaveNoDelim(s: string)
    ensures NoPartHasDelim(Split(s))
    decreases |s|
  {
    if s == [] {
      assert !DelimAt("", 0);
    } else if DelimAt(s, 0) {
      SplitPartsHaveNoDelim(s[2..]);
      assert !DelimAt("", 0);
      NoPartHasDelimCons("", Split(s[2..]));
    } else {
      var rest := Split(s[1..]);
      SplitPartsHaveNoDelim(s[1..]);
      assert !ContainsDelim(rest[0]);
      if s[0] == '*' && rest[0] != [] {
        assert rest[0][0] == s[1];
      }
      ConsNoDelim(s[0], rest[0]);
      assert NoPartHasDelim(rest[1..]) by {
        forall k | 0 <= k < |rest| - 1 ensures !ContainsDelim(rest[1..][k]) {
          assert rest[1..][k] == rest[k + 1];
        }
      }
      NoPartHasDelimCons([s[0]] + rest[0], rest[1..]);
    }
  }

  /** No part of a list except the last ends with `*`. */
  predicate NoInnerPartEndsWithStar(parts: seq<string>)
  {
    forall k :: 0 <= k < |parts| - 1 ==> !EndsWithStar(parts[k])
  }

  lemma NoInnerPartEndsWithStarCons(x: string, parts: seq<string>)
    requires NoInnerPartEndsWithStar(parts)
    requires parts != [] ==> !EndsWithStar(x)
    ensures NoInnerPartEndsWithStar([x] + parts)
  {
  }

  /**
   * The scan is leftmost: a part followed by a delimiter never ends with `*`
   * (otherwise the delimiter would have been found one character earlier).
   */
  lemma {:induction false} SplitIsLeftmost(s: string)
    ensures NoInnerPartEndsWithStar(Split(s))
    decreases |s|
  {
    if s == [] {
    } else if DelimAt(s, 0) {
      SplitIsLeftmost(s[2..]);
      NoInnerPartEndsWithStarCons("", Split(s[2..]));
    } else {
      var rest := Split(s[1..]);
      SplitIsLeftmost(s[1..]);
      var first := [s[0]] + rest[0];
      if |rest| > 1 {
        // An empty first part of the rest means s[1..] starts with the
        // delimiter, so s[0] is not a `*`.
        assert rest[0] != [] ==> first[|first| - 1] == rest[0][|rest[0]| - 1];
      }
      assert NoInnerPartEndsWithStar(rest[1..]) by {
        forall k | 0 <= k < |rest| - 2 ensures !EndsWithStar(rest[1..][k]) {
          assert rest[1..][k] == rest[k + 1];
        }
      }
      NoInnerPartEndsWithStarCons(first, rest[1..]);
    }
  }

  /** The conditions that single out the split among all ways to cut s at `**`. */
  predicate IsDelimSplit(s: string, parts: seq<string>)
  {
    && |parts| >= 1
    && Join(parts) == s
    && NoPartHasDelim(parts)
    && NoInnerPartEndsWithStar(parts)
  }

  /** Split is exactly the leftmost cut of s at every `**`, and it is the only one. */
  lemma {:induction false} SplitCharacterised(s: string, parts: seq<string>)
    ensures IsDelimSplit(s, Split(s))
    ensures IsDelimSplit(s, parts) ==> parts == Split(s)
    decreases |s|
  {
    SplitJoin(s);
    SplitPartsHaveNoDelim(s);
    SplitIsLeftmost(s);
    if IsDelimSplit(s, parts) {
      SplitUnique(s, parts);
    }
  }

  lemma {:induction false} SplitUnique(s: string, parts: seq<string>)
    requires IsDelimSplit(s, parts)
    ensures parts == Split(s)
    decreases |s|
  {
    if |parts| == 1 {
      NoDelimSplitsToItself(s);
    } else {
      var tail := parts[1..];
      assert s == parts[0] + "**" + Join(tail);
      if parts[0] == [] {
        assert DelimAt(s, 0);
        assert s[2..] == Join(tail);
        assert IsDelimSplit(s[2..], tail) by {
          forall k | 0 <= k < |tail| ensures !ContainsDelim(tail[k]) {
            assert tail[k] == parts[k + 1];
          }
          forall k | 0 <= k < |tail| - 1 ensures !EndsWithStar(tail[k]) {
            assert tail[k] == parts[k + 1];
          }
        }
        SplitUnique(s[2..], tail);
        assert parts == [""] + tail;
      } else {
        var c, q := parts[0][0], parts[0][1..];
        assert parts[0] == [c] + q;
        assert s[0] == c;
        assert !DelimAt(s, 0) by {
          if c == '*' && q != [] {
            assert s[1] == q[0];
            assert !DelimAt(parts[0], 0);
          }
        }
        var p' := [q] + tail;
        assert p'[1..] == tail;
        assert s[1..] == q + "**" + Join(tail);
        assert IsDelimSplit(s[1..], p') by {
          assert !ContainsDelim(q) by {
            forall k: nat | DelimAt(q, k) ensures false {
              assert DelimAt(parts[0], k + 1);
            }
          }
          assert !EndsWithStar(q) by {
            if q != [] {
              assert q[|q| - 1] == parts[0][|parts[0]| - 1];
            }
          }
          forall k | 1 <= k < |p'| ensures !ContainsDelim(p'[k]) {
            assert p'[k] == parts[k];
          }
          forall k | 1 <= k < |p'| - 1 ensures !EndsWithStar(p'[k]) {
            assert p'[k] == parts[k];
          }
        }
        SplitUnique(s[1..], p');
        assert parts == [[c] + q] + tail;
      }
    }
  }

  /** Content without `**` is one part equal to the content. */
  lemma {:induction false} NoDelimSplitsToItself(s: string)
    requires !ContainsDelim(s)
    ensures Split(s) == [s]
    decreases |s|
  {
    if s != [] {
      assert !DelimAt(s, 0);
      assert !ContainsDelim(s[1..]) by {
        forall k: nat | DelimAt(s[1..], k) ensures false {
          assert DelimAt(s, k + 1);
        }
      }
      NoDelimSplitsToItself(s[1..]);
      assert s == [s[0]] + s[1..];
    }
  }

  /** The split has a single part exactly when the content has no `**`. */
  lemma SinglePartIffNoDelim(s: string)
    ensures |Split(s)| == 1 <==> !ContainsDelim(s)
  {
    if |Split(s)| == 1 {
      SplitJoin(s);
      SplitPartsHaveNoDelim(s);
      assert Split(s)[0] == s;
    } else if !ContainsDelim(s) {
      NoDelimSplitsToItself(s);
    }
  }

  /** There is one more part than there are delimiters. */
  lemma {:induction false} SplitPartCount(s: string)
    ensures |Split(s)| == CountDelims(s) + 1
    decreases |s|
  {
    if s == [] {
    } else if DelimAt(s, 0) {
      SplitPartCount(s[2..]);
    } else {
      SplitPartCount(s[1..]);
    }
  }

  // ---------------------------------------------------------------------------
  // Properties of the rendering

  /** Joining the span texts with `**` gives back the content. */
  lemma RenderRoundTrip(content: string)
    ensures |Render(content)| >= 1
    ensures Join(Texts(Render(content))) == content
  {
    assert Texts(Render(content)) == Split(content);
    SplitJoin(content);
  }

  /** Content without `**` is shown as one plain span holding the content. */
  lemma RenderWithoutDelim(content: string)
    requires !ContainsDelim(content)
    ensures Render(content) == [Plain(content)]
  {
    NoDelimSplitsToItself(content);
  }

  /**
   * With an odd number of delimiters the last part sits at an odd index, so
   * the unmatched trailing text is emphasised, not shown plain.
   */
  lemma OddDelimsEmphasiseTail(content: string)
    requires CountDelims(content) % 2 == 1
    ensures Render(content)[|Render(content)| - 1].Strong?
  {
    SplitPartCount(content);
  }

  /** With an even number of delimiters the trailing part is plain. */
  lemma EvenDelimsKeepTailPlain(content: string)
    requires CountDelims(content) % 2 == 0
    ensures Render(content)[|Render(content)| - 1].Plain?
  {
    SplitPartCount(content);
  }

  lemma StarFreeHasNoDelim(t: string)
    requires forall j :: 0 <= j < |t| ==> t[j] != '*'
    ensures !ContainsDelim(t)
  {
  }

  /** The worked example `You **pass** the test` splits around its one emphasised word. */
  lemma SplitExample()
    ensures Split("You **pass** the test") == ["You ", "pass", " the test"]
  {
    var s := "You **pass** the test";
    var parts := ["You ", "pass", " the test"];
    assert Join(parts) == s by {
      assert parts[1..][1..] == [" the test"];
      assert Join(parts[1..]) == "pass" + "**" + " the test";
    }
    StarFreeHasNoDelim(parts[0]);
    StarFreeHasNoDelim(parts[1]);
    StarFreeHasNoDelim(parts[2]);
    assert IsDelimSplit(s, parts);
    SplitUnique(s, parts);
  }

  /** Content that splits into three parts shows the middle one emphasised. */
  lemma RenderThreeParts(content: string, a: string, b: string, c: string)
    requires Split(content) == [a, b, c]
    ensures Render(content) == [Plain(a), Strong(b), Plain(c)]
  {
  }

  /** `You **pass** the test` shows `pass` emphasised and the rest plain and unchanged. */
  lemma RenderExample()
    ensures Render("You **pass** the test")
         == [Plain("You "), Strong("pass"), Plain(" the test")]
  {
    SplitExample();
    RenderThreeParts("You **pass** the test", "You ", "pass", " the test");
  }
}
