/**
 * White-space processing ahead of shaping (CSS Text 3 section 4.1.1): `normal`
 * text collapses every run of collapsible characters to one space, across the
 * boundaries of text nodes by threading a flag; `pre` text only has its segment
 * breaks spelled one way.
 */
module Whitespace {
  import opened Styles

  predicate IsCollapsible(c: char) {
    c == ' ' || c == '\t' || c == '\n' || c == '\r' || c == 12 as char
  }

  predicate AllCollapsible(text: string) {
    forall i :: 0 <= i < |text| ==> IsCollapsible(text[i])
  }

  /** The processed text, and whether a space at the start of what follows must be dropped. */
  datatype Processed = Processed(text: string, suppressNext: bool)

  /** What is still to be emitted, given the flag and whether collapsible characters are pending. */
  function NormalFrom(text: string, suppress: bool, pending: bool): Processed {
    if text == [] then
      if pending && !suppress then Processed(" ", true) else Processed("", suppress)
    else if IsCollapsible(text[0]) then
      NormalFrom(text[1..], suppress, true)
    else
      var rest := NormalFrom(text[1..], false, false);
      Processed((if pending && !suppress then " " else "") + [text[0]] + rest.text, rest.suppressNext)
  }

  function Normal(text: string, suppress: bool): Processed {
    NormalFrom(text, suppress, false)
  }

  function BreaksFrom(text: string, afterCr: bool): string {
    if text == [] then ""
    else if text[0] == '\r' then "\n" + BreaksFrom(text[1..], true)
    else if text[0] == '\n' && afterCr then BreaksFrom(text[1..], false)
    else [text[0]] + BreaksFrom(text[1..], false)
  }

  /** What comes out when `rest` is still to be emitted after `out`. */
  function After(out: string, rest: Processed): Processed {
    Processed(out + rest.text, rest.suppressNext)
  }

  lemma NormalStep(out: string, text: string, suppress: bool, pending: bool)
    requires text != []
    ensures After(out, NormalFrom(text, suppress, pending)) ==
            if IsCollapsible(text[0]) then After(out, NormalFrom(text[1..], suppress, true))
            else After((if pending && !suppress then out + " " else out) + [text[0]],
                       NormalFrom(text[1..], false, false))
  {
    if !IsCollapsible(text[0]) {
      var rest := NormalFrom(text[1..], false, false);
      hide IsCollapsible, NormalFrom;
      Regroup(out, " ", [text[0]], rest.text);
      Regroup(out, "", [text[0]], rest.text);
    }
  }

  lemma Regroup(a: string, gap: string, c: string, rest: string)
    ensures a + (gap + c + rest) == (a + gap) + c + rest && a + "" == a
  {
  }

  lemma AfterNothing(p: Processed)
    ensures After("", p) == p
  {
  }

  lemma NormalEnd(out: string, suppress: bool, pending: bool)
    ensures After(out, NormalFrom("", suppress, pending)) ==
            if pending && !suppress then Processed(out + " ", true) else Processed(out, suppress)
  {
  }

  method ProcessNormal(text: string, suppressLeading: bool) returns (r: Processed)
    ensures r == Normal(text, suppressLeading)
  {
    hide NormalFrom, After, IsCollapsible;
    var out, suppress, inSpaceRun := "", suppressLeading, false;
    AfterNothing(Normal(text, suppressLeading));
    assert text[0..] == text;
    for i := 0 to |text|
      invariant Normal(text, suppressLeading) == After(out, NormalFrom(text[i..], suppress, inSpaceRun))
    {
      var c := text[i];
      assert text[i..][1..] == text[i + 1..];
      NormalStep(out, text[i..], suppress, inSpaceRun);
      if IsCollapsible(c) {
        inSpaceRun := true;
      } else {
        if inSpaceRun {
          inSpaceRun := false;
          if !suppress {
            out := out + " ";
          }
        }
        out := out + [c];
        suppress := false;
      }
    }
    assert text[|text|..] == "";
    NormalEnd(out, suppress, inSpaceRun);
    if inSpaceRun && !suppress {
      out := out + " ";
      suppress := true;
    }
    r := Processed(out, suppress);
  }

  method NormalizeSegmentBreaks(text: string) returns (out: string)
    ensures out == BreaksFrom(text, false)
  {
    out := "";
    var afterCr := false;
    for i := 0 to |text|
      invariant out + BreaksFrom(text[i..], afterCr) == BreaksFrom(text, false)
    {
      var c := text[i];
      assert text[i..][1..] == text[i + 1..];
      if c == '\r' {
        out := out + "\n";
        afterCr := true;
      } else if c == '\n' && afterCr {
        afterCr := false;
      } else {
        afterCr := false;
        out := out + [c];
      }
    }
  }

  function ProcessedText(text: string, mode: WhiteSpace, suppress: bool): Processed {
    if mode.Normal? then Normal(text, suppress) else Processed(BreaksFrom(text, false), false)
  }

  method Process(text: string, mode: WhiteSpace, suppressLeading: bool) returns (r: Processed)
    ensures r == ProcessedText(text, mode, suppressLeading)
  {
    match mode
    case Normal => r := ProcessNormal(text, suppressLeading);
    case Pre =>
      var out := NormalizeSegmentBreaks(text);
      r := Processed(out, false);
  }

  // ----- cutting a text anywhere changes nothing -----

  /** A pending space is the same as one already written with the flag raised. */
  lemma {:induction false} PendingSpace(text: string)
    ensures NormalFrom(text, true, true) == NormalFrom(text, true, false)
    ensures var r := NormalFrom(text, true, false);
            NormalFrom(text, false, true) == Processed(" " + r.text, r.suppressNext)
  {
    if text != [] && IsCollapsible(text[0]) {
      PendingSpace(text[1..]);
    }
  }

  /** Processing the pieces with the flag threaded through is processing the whole. */
  lemma {:induction false} CutAnywhere(a: string, b: string, suppress: bool, pending: bool)
    ensures var first := NormalFrom(a, suppress, pending);
            var second := Normal(b, first.suppressNext);
            NormalFrom(a + b, suppress, pending) == Processed(first.text + second.text, second.suppressNext)
  {
    if a == [] {
      assert a + b == b;
      PendingSpace(b);
    } else {
      assert (a + b)[1..] == a[1..] + b;
      if IsCollapsible(a[0]) {
        CutAnywhere(a[1..], b, suppress, true);
      } else {
        CutAnywhere(a[1..], b, false, false);
      }
    }
  }

  /** The texts of one block processed in order with the flag threaded through. */
  function Threaded(texts: seq<string>, suppress: bool): Processed {
    if texts == [] then Processed("", suppress)
    else
      var first := Normal(texts[0], suppress);
      var rest := Threaded(texts[1..], first.suppressNext);
      Processed(first.text + rest.text, rest.suppressNext)
  }

  function Joined(texts: seq<string>): string {
    if texts == [] then "" else texts[0] + Joined(texts[1..])
  }

  lemma {:induction false} ThreadedIsWhole(texts: seq<string>, suppress: bool)
    ensures Threaded(texts, suppress) == Normal(Joined(texts), suppress)
  {
    if texts != [] {
      ThreadedIsWhole(texts[1..], Normal(texts[0], suppress).suppressNext);
      CutAnywhere(texts[0], Joined(texts[1..]), suppress, false);
    }
  }

  // ----- what the output looks like -----

  /** Single spaces only, none at the front if it is suppressed, and no other collapsible character. */
  predicate Collapsed(text: string, suppress: bool) {
    && (forall i :: 0 <= i < |text| && IsCollapsible(text[i]) ==> text[i] == ' ')
    && (forall i :: 0 < i < |text| && text[i] == ' ' ==> text[i - 1] != ' ')
    && (suppress && text != [] ==> text[0] != ' ')
  }

  function Words(text: string): string {
    if text == [] then ""
    else (if IsCollapsible(text[0]) then "" else [text[0]]) + Words(text[1..])
  }

  lemma CollapsedCons(c: char, rest: string, suppress: bool)
    requires !IsCollapsible(c) && Collapsed(rest, false)
    ensures Collapsed([c] + rest, suppress)
  {
  }

  lemma CollapsedSpace(tail: string)
    requires Collapsed(tail, true)
    ensures Collapsed(" " + tail, false)
  {
  }

  lemma WordsCons(c: char, rest: string)
    ensures Words([c] + rest) == (if IsCollapsible(c) then "" else [c]) + Words(rest)
  {
    assert ([c] + rest)[1..] == rest;
  }

  lemma OnlySpace()
    ensures Collapsed(" ", false) && Collapsed("", true) && Collapsed("", false) && Words(" ") == Words("")
  {
    assert Words(" ") == "" + Words(" "[1..]);
  }

  lemma {:induction false} OutputCollapsed(text: string, suppress: bool, pending: bool)
    ensures Collapsed(NormalFrom(text, suppress, pending).text, suppress)
    ensures Words(NormalFrom(text, suppress, pending).text) == Words(text)
  {
    hide Collapsed;
    OnlySpace();
    if text != [] {
      if IsCollapsible(text[0]) {
        OutputCollapsed(text[1..], suppress, true);
      } else {
        OutputCollapsed(text[1..], false, false);
        var rest := NormalFrom(text[1..], false, false).text;
        var tail := [text[0]] + rest;
        CollapsedCons(text[0], rest, true);
        CollapsedCons(text[0], rest, suppress);
        WordsCons(text[0], rest);
        CollapsedSpace(tail);
        WordsCons(' ', tail);
        assert NormalFrom(text, suppress, pending).text == (if pending && !suppress then " " + tail else tail);
      }
    }
  }

  /** Text that is already collapsed comes through unchanged. */
  lemma {:induction false} CollapsedIsFixed(text: string, suppress: bool)
    requires Collapsed(text, suppress)
    ensures Normal(text, suppress).text == text
  {
    if text != [] {
      if IsCollapsible(text[0]) {
        if |text| > 1 {
          assert !IsCollapsible(text[1]);
          assert text[1..][1..] == text[2..];
          CollapsedIsFixed(text[2..], false);
          assert NormalFrom(text[1..], false, true).text == " " + [text[1]] + text[2..];
          assert text == " " + [text[1]] + text[2..];
        }
      } else {
        CollapsedIsFixed(text[1..], false);
      }
    }
  }

  /** Processing twice is processing once. */
  lemma NormalIsIdempotent(text: string, suppress: bool)
    ensures Normal(Normal(text, suppress).text, suppress).text == Normal(text, suppress).text
  {
    OutputCollapsed(text, suppress, false);
    CollapsedIsFixed(Normal(text, suppress).text, suppress);
  }

  /** From a block start the output is empty exactly when every character is collapsible. */
  lemma {:induction false} EmptyExactlyWhenCollapsible(text: string, pending: bool)
    ensures NormalFrom(text, true, pending).text == "" <==> AllCollapsible(text)
  {
    if text != [] {
      if IsCollapsible(text[0]) {
        EmptyExactlyWhenCollapsible(text[1..], true);
        assert AllCollapsible(text) <==> AllCollapsible(text[1..]) by {
          assert forall i :: 0 <= i < |text[1..]| ==> text[1..][i] == text[i + 1];
        }
      }
    }
  }

  // ----- segment breaks -----

  lemma {:induction false} BreaksAreLineFeeds(text: string, afterCr: bool)
    ensures '\r' !in BreaksFrom(text, afterCr)
  {
    if text != [] {
      BreaksAreLineFeeds(text[1..], text[0] == '\r');
      BreaksAreLineFeeds(text[1..], false);
    }
  }

  lemma {:induction false} LineFeedsAreFixed(text: string)
    requires '\r' !in text
    ensures BreaksFrom(text, false) == text
  {
    if text != [] {
      LineFeedsAreFixed(text[1..]);
    }
  }

  lemma BreaksAreIdempotent(text: string)
    ensures BreaksFrom(BreaksFrom(text, false), false) == BreaksFrom(text, false)
  {
    BreaksAreLineFeeds(text, false);
    LineFeedsAreFixed(BreaksFrom(text, false));
  }

  // ----- what every character of the source comes to -----

  /** Space, tab, line feed, carriage return, form feed. */
  lemma CollapsibleCharacters(c: char)
    ensures IsCollapsible(c) <==> c in " \t\n\r\U{0C}"
  {
  }

  /** The last of a run of collapsible characters. */
  predicate EndsRun(text: string, i: nat)
    requires i < |text|
  {
    IsCollapsible(text[i]) && (i + 1 == |text| || !IsCollapsible(text[i + 1]))
  }

  /** No space may be written at `i`: one stands before the text, and no other character has come since. */
  predicate Swallowed(text: string, suppress: bool, i: nat)
    requires i <= |text|
  {
    suppress && AllCollapsible(text[..i])
  }

  /** What the character at `i` comes to: itself, or for a whole run one space, unless it is swallowed. */
  function Written(text: string, suppress: bool, i: nat): string
    requires i < |text|
  {
    if !IsCollapsible(text[i]) then [text[i]]
    else if EndsRun(text, i) && !Swallowed(text, suppress, i) then " "
    else ""
  }

  function WrittenFrom(text: string, suppress: bool, i: nat): string
    requires i <= |text|
    decreases |text| - i
  {
    if i == |text| then "" else Written(text, suppress, i) + WrittenFrom(text, suppress, i + 1)
  }

  lemma SwallowedNext(text: string, suppress: bool, i: nat)
    requires i < |text|
    ensures Swallowed(text, suppress, i + 1) <==> Swallowed(text, suppress, i) && IsCollapsible(text[i])
  {
    var front, longer := text[..i], text[..i + 1];
    assert longer == front + [text[i]];
    if AllCollapsible(longer) {
      assert IsCollapsible(longer[i]);
      assert forall k :: 0 <= k < |front| ==> front[k] == longer[k];
    }
  }

  /** The walk has written everything up to `i`, but for the space of a run that may go on. */
  lemma {:induction false} WrittenSoFar(text: string, suppress: bool, i: nat)
    requires i <= |text|
    ensures var pending := i > 0 && IsCollapsible(text[i - 1]);
            && NormalFrom(text[i..], Swallowed(text, suppress, i), pending).text
               == WrittenFrom(text, suppress, if pending then i - 1 else i)
            && NormalFrom(text[i..], Swallowed(text, suppress, i), pending).suppressNext
               == (Swallowed(text, suppress, |text|) || (text != [] && IsCollapsible(text[|text| - 1])))
    decreases |text| - i
  {
    hide IsCollapsible, Swallowed, NormalFrom, Written, WrittenFrom;
    var pending := i > 0 && IsCollapsible(text[i - 1]);
    if pending {
      SwallowedNext(text, suppress, i - 1);
      WrittenStep(text, suppress, i - 1);
    }
    if i < |text| {
      SwallowedNext(text, suppress, i);
      assert text[i..][1..] == text[i + 1..] && text[i..][0] == text[i];
      WrittenStep(text, suppress, i);
      NormalUnfold(text[i..], Swallowed(text, suppress, i), pending);
      WrittenSoFar(text, suppress, i + 1);
    } else {
      assert text[i..] == "";
      NormalUnfold("", Swallowed(text, suppress, i), pending);
      assert WrittenFrom(text, suppress, |text|) == "" by { NothingWritten(text, suppress); }
    }
  }

  lemma NothingWritten(text: string, suppress: bool)
    ensures WrittenFrom(text, suppress, |text|) == ""
  {
  }

  lemma WrittenStep(text: string, suppress: bool, i: nat)
    requires i < |text|
    ensures WrittenFrom(text, suppress, i)
            == (if !IsCollapsible(text[i]) then [text[i]]
                else if (i + 1 == |text| || !IsCollapsible(text[i + 1])) && !Swallowed(text, suppress, i) then " "
                else "") + WrittenFrom(text, suppress, i + 1)
  {
    hide IsCollapsible, Swallowed;
  }

  lemma NormalUnfold(text: string, suppress: bool, pending: bool)
    ensures var r := NormalFrom(text, suppress, pending);
            if text == [] then r == if pending && !suppress then Processed(" ", true) else Processed("", suppress)
            else if IsCollapsible(text[0]) then r == NormalFrom(text[1..], suppress, true)
            else
              var rest := NormalFrom(text[1..], false, false);
              && r.text == (if pending && !suppress then " " else "") + ([text[0]] + rest.text)
              && r.suppressNext == rest.suppressNext
  {
    hide IsCollapsible;
    if text != [] && !IsCollapsible(text[0]) {
      Grouped(if pending && !suppress then " " else "", [text[0]], NormalFrom(text[1..], false, false).text);
    }
  }

  lemma Grouped(a: string, b: string, c: string)
    ensures a + b + c == a + (b + c)
  {
  }

  /**
   * Collapsing, character by character: every other character stays where it is, every run
   * of collapsible ones comes to one space, or to none at the front where a space stands
   * before the text; and the flag handed on says whether what has been written ends in one.
   */
  lemma SpaceForRun(text: string, suppress: bool)
    ensures Normal(text, suppress).text == WrittenFrom(text, suppress, 0)
    ensures Normal(text, suppress).suppressNext
            <==> (suppress && AllCollapsible(text)) || (text != [] && IsCollapsible(text[|text| - 1]))
  {
    hide NormalFrom, IsCollapsible;
    assert text[0..] == text && text[..0] == [] && text[..|text|] == text;
    WrittenSoFar(text, suppress, 0);
  }

  /** What the character at `i` comes to in `pre` text: a line feed for every way to spell a break. */
  function Broken(text: string, i: nat): string
    requires i < |text|
  {
    if text[i] == '\r' then "\n"
    else if text[i] == '\n' && i > 0 && text[i - 1] == '\r' then ""
    else [text[i]]
  }

  function BrokenFrom(text: string, i: nat): string
    requires i <= |text|
    decreases |text| - i
  {
    if i == |text| then "" else Broken(text, i) + BrokenFrom(text, i + 1)
  }

  /** A carriage return, alone or with the line feed behind it, becomes one line feed; all else stays. */
  lemma {:induction false} BreaksSpelled(text: string, i: nat)
    requires i <= |text|
    ensures BreaksFrom(text[i..], i > 0 && text[i - 1] == '\r') == BrokenFrom(text, i)
    decreases |text| - i
  {
    if i < |text| {
      assert text[i..][1..] == text[i + 1..];
      BreaksSpelled(text, i + 1);
    }
  }
}
