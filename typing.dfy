/** The typing effect: the answer is split into words and the placeholder is
    overwritten once per word with the text typed so far. */
module Typing {
  import opened Text

  /** A display slot whose whole content each `Markdown` call replaces; the
      model keeps every content it has shown, in order. */
  class Placeholder {
    var frames: seq<string>

    constructor ()
      ensures frames == []
    {
      frames := [];
    }

    /** Replace the displayed text with `text`. */
    method Markdown(text: string)
      modifies this
      ensures frames == old(frames) + [text]
    {
      frames := frames + [text];
    }
  }

  /** The cumulative texts for a list of words: entry i is the first i + 1
      words joined by single spaces. */
  function Cumulative(ws: seq<string>): (fs: seq<string>)
    ensures |fs| == |ws|
    decreases |ws|
  {
    if ws == [] then [] else Cumulative(ws[..|ws| - 1]) + [Join(ws)]
  }

  /** What the placeholder shows, frame by frame, while `text` is typed. */
  function Frames(text: string): seq<string> {
    Cumulative(Split(text))
  }

  /** The words typed so far, each followed by the space the loop appends. */
  function Typed(ws: seq<string>): string
    decreases |ws|
  {
    if ws == [] then "" else Typed(ws[..|ws| - 1]) + ws[|ws| - 1] + " "
  }

  lemma {:induction false} TypedIsJoinPlusSpace(ws: seq<string>)
    requires ws != []
    ensures Typed(ws) == Join(ws) + " "
    decreases |ws|
  {
    if |ws| > 1 {
      TypedIsJoinPlusSpace(ws[..|ws| - 1]);
    }
  }

  /** The loop's displayed text, once stripped, is the words joined by single
      spaces. */
  lemma StripTyped(ws: seq<string>)
    requires AllWords(ws) && ws != []
    ensures Strip(Typed(ws)) == Join(ws)
  {
    TypedIsJoinPlusSpace(ws);
    JoinEdges(ws);
    StripTrailingSpace(Join(ws));
  }

  /** One pass of the typing loop: the displayed text gains a word and a
      space, and its stripped form is the next cumulative frame. */
  lemma TypingStep(ws: seq<string>, i: nat)
    requires AllWords(ws) && i < |ws|
    ensures Typed(ws[..i + 1]) == Typed(ws[..i]) + ws[i] + " "
    ensures Cumulative(ws[..i + 1]) == Cumulative(ws[..i]) + [Strip(Typed(ws[..i + 1]))]
  {
    var pre := ws[..i + 1];
    assert pre[..i] == ws[..i];
    assert AllWords(pre);
    StripTyped(pre);
  }

  /** `display_typing_effect`: one `Markdown` call per word, each showing the
      words typed so far. */
  method DisplayTypingEffect(responseText: string, placeholder: Placeholder)
    modifies placeholder
    ensures placeholder.frames == old(placeholder.frames) + Frames(responseText)
  {
    var words := Split(responseText);
    var displayed := "";
    for i := 0 to |words|
      invariant displayed == Typed(words[..i])
      invariant placeholder.frames == old(placeholder.frames) + Cumulative(words[..i])
    {
      TypingStep(words, i);
      displayed := displayed + words[i] + " ";
      placeholder.Markdown(Strip(displayed));
    }
    assert words[..|words|] == words;
  }

  /** Frame i is the first i + 1 words joined by single spaces. */
  lemma {:induction false} CumulativeAt(ws: seq<string>, i: nat)
    requires i < |ws|
    ensures Cumulative(ws)[i] == Join(ws[..i + 1])
    decreases |ws|
  {
    if i < |ws| - 1 {
      var init := ws[..|ws| - 1];
      CumulativeAt(init, i);
      assert init[..i + 1] == ws[..i + 1];
    } else {
      assert ws[..i + 1] == ws;
    }
  }

  /** One frame per whitespace-separated word; blank text shows nothing. */
  lemma FrameCount(text: string)
    ensures |Frames(text)| == |Split(text)|
    ensures Frames(text) == [] <==> AllSpace(text)
  {
    SplitEmptyIffBlank(text);
  }

  /** Each frame extends the previous one by a space and the next word. */
  lemma FramesGrow(text: string, i: nat)
    requires i + 1 < |Frames(text)|
    ensures var fs, ws := Frames(text), Split(text);
      fs[i + 1] == fs[i] + " " + ws[i + 1] && IsPrefix(fs[i], fs[i + 1])
  {
    var ws := Split(text);
    CumulativeAt(ws, i);
    CumulativeAt(ws, i + 1);
    assert ws[..i + 2][..i + 1] == ws[..i + 1];
  }

  /** The last frame is every word of the text joined by single spaces. */
  lemma LastFrame(text: string)
    requires Frames(text) != []
    ensures Frames(text)[|Frames(text)| - 1] == Join(Split(text))
  {
    var ws := Split(text);
    CumulativeAt(ws, |ws| - 1);
    assert ws[..|ws|] == ws;
  }

  /** No frame starts or ends with whitespace, and none is empty. */
  lemma FramesTrimmed(text: string, i: nat)
    requires i < |Frames(text)|
    ensures Frames(text)[i] != [] && Trimmed(Frames(text)[i])
  {
    var ws := Split(text);
    CumulativeAt(ws, i);
    assert AllWords(ws[..i + 1]);
    JoinEdges(ws[..i + 1]);
  }

  /** Typing text that is already single-spaced words ends on that very text. */
  lemma FramesOfJoin(ws: seq<string>)
    requires AllWords(ws)
    ensures Frames(Join(ws)) == Cumulative(ws)
  {
    SplitJoin(ws);
  }

  /** Typing "a b c" shows "a", then "a b", then "a b c"; typing "" shows
      nothing. */
  lemma FramesExample()
    ensures Frames("a b c") == ["a", "a b", "a b c"]
    ensures Frames("") == []
  {
    var ws := ["a", "b", "c"];
    assert IsWord("a") && IsWord("b") && IsWord("c");
    assert AllWords(ws);
    assert ws[..2] == ["a", "b"] && ws[..2][..1] == ["a"];
    assert Join(ws[..2][..1]) == "a";
    assert Join(ws[..2]) == "a b";
    assert Join(ws) == "a b c";
    assert Cumulative(ws[..2][..1]) == ["a"];
    assert Cumulative(ws[..2]) == ["a", "a b"];
    assert Cumulative(ws) == ["a", "a b", "a b c"];
    FramesOfJoin(ws);
  }
}
