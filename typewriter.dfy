/**
 * The typing animation of the hero section (js/main.js): typeWelcome types
 * the welcome word one character per tick into the text of #welcome-text,
 * then hands over to typeIntro, which types the introduction into the HTML of
 * #intro-text one character per tick, or one whole `<...>` tag per tick so
 * that the browser never sees half a tag. One timer tick is one method call;
 * the chain of timeouts is the loop of Animate.
 */
module Typewriter {

  /** The page's welcome word. */
  const WelcomeText: string := "Welcome"

  /**
   * The page's introduction, written as the concatenation of short pieces
   * (one of them the opening and one the closing `span` tag) so that each
   * piece can be inspected on its own.
   */
  const IntroPieces: seq<string> := [
    "I'm ", "<span class='highlight'>", "Neo", "</span>",
    ", a practical", " software engineer", " who loves building things",
    " — from full-stack web", " applications to AI-driven", " tools. I'm passionate",
    " about creating efficient,", " intelligent, and", " high-quality products",
    " that deliver real value", " to users."]

  function Join(parts: seq<string>): string {
    if parts == [] then [] else Join(parts[..|parts| - 1]) + parts[|parts| - 1]
  }

  const IntroText: string := Join(IntroPieces)

  /** String.prototype.indexOf for a one-character needle: the first position at or after `from` holding `c`, or -1. */
  function IndexOf(s: string, c: char, from: nat): (r: int)
    ensures -1 <= r < |s|
    ensures r >= 0 ==> from <= r && s[r] == c && forall j :: from <= j < r ==> s[j] != c
    ensures r == -1 ==> forall j :: from <= j < |s| ==> s[j] != c
    decreases |s| - from
  {
    if from >= |s| then -1
    else if s[from] == c then from
    else IndexOf(s, c, from + 1)
  }

  function Clamp(x: int, n: nat): nat {
    if x < 0 then 0 else if x > n then n else x
  }

  /** String.prototype.substring: both ends clamped to the string, swapped when start > end. */
  function Substring(s: string, start: int, end: int): (r: string)
    ensures |r| <= |s|
    ensures 0 <= start <= end <= |s| ==> r == s[start..end]
    ensures start >= |s| && end >= |s| ==> r == []
  {
    var a, b := Clamp(start, |s|), Clamp(end, |s|);
    if a <= b then s[a..b] else s[b..a]
  }

  /**
   * substring with its ends the wrong way round: the two are swapped, and a
   * negative end counts as 0, so the result is the whole text before `start`.
   */
  lemma SubstringSwapped(s: string, start: int, end: int)
    requires end <= start <= |s| && 0 <= start
    ensures 0 <= end ==> Substring(s, start, end) == s[end..start]
    ensures end <= 0 ==> Substring(s, start, end) == s[..start]
  {
  }

  /** What one typeIntro tick appends to the HTML, and where it leaves introIndex. */
  datatype Step = Step(chunk: string, next: nat)

  /**
   * A tick either moves forward and appends exactly the text it steps over,
   * or (on a `<` with no `>` after it) goes back to 0 and appends the whole
   * text before the current position.
   */
  function IntroStep(text: string, i: nat): (s: Step)
    requires i < |text|
    ensures s.next <= |text|
    ensures text[i] != '<' ==> s.next == i + 1
    ensures s.next > i ==> s.chunk == text[i..s.next]
    ensures s.next <= i ==> s.next == 0 && s.chunk == text[..i]
  {
    if text[i] == '<' then
      var tagEnd := IndexOf(text, '>', i);
      Step(Substring(text, i, tagEnd + 1), tagEnd + 1)
    else
      Step([text[i]], i + 1)
  }

  /** The `<` at position i has a `>` after it. */
  ghost predicate ClosedAt(text: string, i: nat)
    requires i < |text|
  {
    exists j :: i < j < |text| && text[j] == '>'
  }

  /** Every `<` of the text is followed, somewhere later, by a `>`. */
  ghost predicate TagsClosed(text: string) {
    forall i :: 0 <= i < |text| && text[i] == '<' ==> ClosedAt(text, i)
  }

  /** Position k is not inside a tag: every `<` before k has its `>` before k too. */
  ghost predicate OutsideTags(text: string, k: nat)
    requires k <= |text|
  {
    forall i :: 0 <= i < k && text[i] == '<' ==> exists j :: i < j < k && text[j] == '>'
  }

  /**
   * On a closed tag (or on a plain character) a tick makes progress, appends
   * exactly the text it steps over, appends a tag whole (from its `<` to the
   * first `>` after it), and never stops inside a tag.
   */
  lemma IntroStepAdvances(text: string, i: nat)
    requires i < |text|
    requires text[i] == '<' ==> ClosedAt(text, i)
    ensures var s := IntroStep(text, i);
      i < s.next <= |text| &&
      s.chunk == text[i..s.next] &&
      (text[i] != '<' ==> s.next == i + 1 && s.chunk == [text[i]]) &&
      (text[i] == '<' ==> text[s.next - 1] == '>' && forall j :: i < j < s.next - 1 ==> text[j] != '>') &&
      (OutsideTags(text, i) ==> OutsideTags(text, s.next))
  {
    var s := IntroStep(text, i);
    if text[i] == '<' {
      var tagEnd := IndexOf(text, '>', i);
      assert tagEnd >= 0;
      assert s.next == tagEnd + 1;
      if OutsideTags(text, i) {
        forall k | 0 <= k < s.next && text[k] == '<'
          ensures exists j :: k < j < s.next && text[j] == '>'
        {
          if k >= i {
            assert k < tagEnd && text[tagEnd] == '>';
          }
        }
      }
    } else {
      if OutsideTags(text, i) {
        forall k | 0 <= k < i + 1 && text[k] == '<'
          ensures exists j :: k < j < i + 1 && text[j] == '>'
        {
          assert k < i;
        }
      }
    }
  }

  /**
   * The edge case well-formed texts exclude: on a `<` with no `>` after it,
   * indexOf gives -1, substring(i, 0) yields the whole text before the `<`,
   * and introIndex goes back to 0, so the HTML typed so far is repeated.
   */
  lemma IntroStepUnclosedTag(text: string, i: nat)
    requires i < |text| && text[i] == '<' && !ClosedAt(text, i)
    ensures IntroStep(text, i) == Step(text[..i], 0)
    ensures i > 0 ==> text[..i] + IntroStep(text, i).chunk != text[..IntroStep(text, i).next]
  {
    assert IndexOf(text, '>', i) == -1 by {
      assert text[i] != '>';
    }
  }

  /** No `<` in the text at all. */
  ghost predicate TagFree(text: string) {
    forall i :: 0 <= i < |text| ==> text[i] != '<'
  }

  /** A tag-free text has every tag closed, vacuously. */
  lemma TagFreeClosed(text: string)
    requires TagFree(text)
    ensures TagsClosed(text)
  {
  }

  /** Closing every tag is kept when two such texts are joined. */
  lemma TagsClosedConcat(a: string, b: string)
    requires TagsClosed(a) && TagsClosed(b)
    ensures TagsClosed(a + b)
  {
    var ab := a + b;
    forall i | 0 <= i < |ab| && ab[i] == '<'
      ensures ClosedAt(ab, i)
    {
      if i < |a| {
        assert a[i] == '<';
        var j :| i < j < |a| && a[j] == '>';
        assert ab[j] == '>';
      } else {
        assert b[i - |a|] == '<';
        var j :| i - |a| < j < |b| && b[j] == '>';
        assert ab[j + |a|] == '>';
      }
    }
  }

  /** The single tag of a text like "<span ...>", with its `>` at the end. */
  lemma OneTagClosed(tag: string)
    requires |tag| >= 2 && tag[|tag| - 1] == '>'
    ensures TagsClosed(tag)
  {
    forall i | 0 <= i < |tag| && tag[i] == '<'
      ensures ClosedAt(tag, i)
    {
      assert i < |tag| - 1;
    }
  }

  class Typewriter {
    const welcomeText: string
    const introText: string
    var welcomeIndex: nat
    /** The text content of #welcome-text. */
    var welcomeShown: string
    /** Whether #welcome-text carries the typing-cursor class. */
    var welcomeCursor: bool
    /** Whether #accent-line carries the hidden-initial class. */
    var accentHidden: bool
    /** Whether #intro-text carries the typing-cursor class. */
    var introCursor: bool
    var introIndex: nat
    var currentHTML: string
    /** The inner HTML of #intro-text. */
    var introShown: string

    /** The welcome text shown so far is what its index has stepped over. */
    ghost predicate Valid()
      reads this
    {
      welcomeIndex <= |welcomeText| && welcomeShown == welcomeText[..welcomeIndex] &&
      introIndex <= |introText|
    }

    /** The intro HTML typed so far is the prefix its index has stepped over, ending outside any tag. */
    ghost predicate IntroPrefix()
      reads this
      requires introIndex <= |introText|
    {
      currentHTML == introText[..introIndex] && OutsideTags(introText, introIndex)
    }

    /** The page as loaded: nothing typed, the accent line hidden, no cursors. */
    constructor (welcome: string, intro: string)
      ensures welcomeText == welcome && introText == intro
      ensures Valid() && IntroPrefix()
      ensures welcomeIndex == 0 && welcomeShown == [] && !welcomeCursor && accentHidden
      ensures !introCursor && introIndex == 0 && currentHTML == [] && introShown == []
    {
      welcomeText, introText := welcome, intro;
      welcomeIndex, welcomeShown, welcomeCursor, accentHidden := 0, [], false, true;
      introCursor, introIndex, currentHTML, introShown := false, 0, [], [];
    }

    /** The load handler: the welcome element gets its cursor before typing starts. */
    method OnLoad()
      modifies this`welcomeCursor
      ensures welcomeCursor
    {
      welcomeCursor := true;
    }

    /**
     * One typeWelcome tick: types the next character; once the word is
     * complete, removes the cursor, reveals the accent line and starts the
     * intro (the 300 ms callback: cursor on #intro-text and a first typeIntro tick).
     */
    method TypeWelcome() returns (handedOver: bool)
      requires Valid()
      modifies this`welcomeIndex, this`welcomeShown, this`welcomeCursor, this`accentHidden
      modifies this`introCursor, this`introIndex, this`currentHTML, this`introShown
      ensures Valid()
      ensures handedOver == (old(welcomeIndex) == |welcomeText|)
      ensures !handedOver ==>
        welcomeIndex == old(welcomeIndex) + 1 &&
        welcomeShown == old(welcomeShown) + [welcomeText[old(welcomeIndex)]] &&
        introIndex == old(introIndex) && currentHTML == old(currentHTML) && introShown == old(introShown) &&
        welcomeCursor == old(welcomeCursor) && accentHidden == old(accentHidden) && introCursor == old(introCursor)
      ensures handedOver ==>
        welcomeIndex == old(welcomeIndex) && welcomeShown == old(welcomeShown) &&
        !welcomeCursor && !accentHidden && introCursor
      ensures handedOver && old(introIndex) < |introText| ==>
        introIndex == IntroStep(introText, old(introIndex)).next &&
        currentHTML == old(currentHTML) + IntroStep(introText, old(introIndex)).chunk &&
        introShown == currentHTML
      ensures old(introIndex) == |introText| ==>
        introIndex == old(introIndex) && currentHTML == old(currentHTML) && introShown == old(introShown)
    {
      if welcomeIndex < |welcomeText| {
        assert welcomeText[..welcomeIndex + 1] == welcomeShown + [welcomeText[welcomeIndex]];
        welcomeShown := welcomeShown + [welcomeText[welcomeIndex]];
        welcomeIndex := welcomeIndex + 1;
        handedOver := false;
      } else {
        welcomeCursor := false;
        accentHidden := false;
        introCursor := true;
        TypeIntro();
        handedOver := true;
      }
    }

    /** One typeIntro tick: appends a character, or a whole tag when the character opens one. */
    method TypeIntro()
      requires Valid()
      modifies this`introIndex, this`currentHTML, this`introShown
      ensures Valid()
      ensures old(introIndex) < |introText| ==>
        introIndex == IntroStep(introText, old(introIndex)).next &&
        currentHTML == old(currentHTML) + IntroStep(introText, old(introIndex)).chunk &&
        introShown == currentHTML
      ensures old(introIndex) == |introText| ==>
        introIndex == old(introIndex) && currentHTML == old(currentHTML) && introShown == old(introShown)
    {
      if introIndex < |introText| {
        var c := introText[introIndex];
        if c == '<' {
          var tagEnd := IndexOf(introText, '>', introIndex);
          var tag := Substring(introText, introIndex, tagEnd + 1);
          currentHTML := currentHTML + tag;
          introIndex := tagEnd + 1;
        } else {
          currentHTML := currentHTML + [c];
          introIndex := introIndex + 1;
        }
        introShown := currentHTML;
      }
    }

    /**
     * The whole animation from page load: typeWelcome ticks until the word
     * is typed, one more tick hands over, then typeIntro ticks until the
     * intro is exhausted. With every tag closed, both texts end up shown in
     * full and the intro never shows part of a tag.
     */
    method Animate() returns (welcomeTicks: nat, introTicks: nat)
      requires Valid() && welcomeIndex == 0 && welcomeShown == []
      requires introIndex == 0 && currentHTML == [] && introShown == []
      requires TagsClosed(introText)
      modifies this
      ensures Valid() && welcomeIndex == |welcomeText| && introIndex == |introText|
      ensures welcomeShown == welcomeText && welcomeTicks == |welcomeText| + 1
      ensures !welcomeCursor && !accentHidden && introCursor
      ensures currentHTML == introText && introShown == introText
      ensures introTicks <= |introText|
    {
      OnLoad();
      var handedOver := false;
      welcomeTicks := 0;
      while !handedOver
        invariant Valid() && introIndex <= |introText| && IntroPrefix()
        invariant !handedOver ==> welcomeTicks == welcomeIndex && introIndex == 0 && currentHTML == [] && introShown == []
        invariant handedOver ==> welcomeTicks == |welcomeText| + 1 && welcomeIndex == |welcomeText|
        invariant handedOver ==> !welcomeCursor && !accentHidden && introCursor
        invariant handedOver ==> introShown == currentHTML && (|introText| > 0 ==> introIndex > 0)
        decreases |welcomeText| - welcomeIndex, if handedOver then 0 else 1
      {
        if |introText| > 0 {
          IntroStepAdvances(introText, 0);
        }
        handedOver := TypeWelcome();
        welcomeTicks := welcomeTicks + 1;
      }
      introTicks := if |introText| > 0 then 1 else 0;
      while introIndex < |introText|
        invariant Valid() && IntroPrefix()
        invariant !welcomeCursor && !accentHidden && introCursor
        invariant welcomeShown == welcomeText
        invariant introShown == currentHTML
        invariant introTicks <= introIndex
        decreases |introText| - introIndex
      {
        IntroStepAdvances(introText, introIndex);
        TypeIntro();
        introTicks := introTicks + 1;
      }
    }
  }

  /** Joining texts that close all their tags gives a text that closes all its tags. */
  lemma {:induction false} JoinTagsClosed(parts: seq<string>)
    requires forall k :: 0 <= k < |parts| ==> TagsClosed(parts[k])
    ensures TagsClosed(Join(parts))
  {
    if parts != [] {
      JoinTagsClosed(parts[..|parts| - 1]);
      TagsClosedConcat(Join(parts[..|parts| - 1]), parts[|parts| - 1]);
    }
  }

  /** The page's introduction closes its tags, so its animation runs to the end. */
  lemma IntroTextTagsClosed()
    ensures TagsClosed(IntroText)
  {
    var p := IntroPieces;
    OneTagClosed(p[1]);
    OneTagClosed(p[3]);
    forall k | 0 <= k < |p| && k != 1 && k != 3
      ensures TagsClosed(p[k])
    {
      assert TagFree(p[k]) by {
        if k == 0 { assert TagFree(p[0]); }
        else if k == 2 { assert TagFree(p[2]); }
        else if k == 4 { assert TagFree(p[4]); }
        else if k == 5 { assert TagFree(p[5]); }
        else if k == 6 { assert TagFree(p[6]); }
        else if k == 7 { assert TagFree(p[7]); }
        else if k == 8 { assert TagFree(p[8]); }
        else if k == 9 { assert TagFree(p[9]); }
        else if k == 10 { assert TagFree(p[10]); }
        else if k == 11 { assert TagFree(p[11]); }
        else if k == 12 { assert TagFree(p[12]); }
        else if k == 13 { assert TagFree(p[13]); }
        else { assert TagFree(p[14]); }
      }
      TagFreeClosed(p[k]);
    }
    JoinTagsClosed(p);
  }

  /** The page's own animation ends with the welcome word and the whole introduction on screen. */
  method AnimatePage() returns (page: Typewriter)
    ensures fresh(page)
    ensures page.welcomeShown == WelcomeText && page.introShown == IntroText
  {
    IntroTextTagsClosed();
    page := new Typewriter(WelcomeText, IntroText);
    var welcomeTicks, introTicks := page.Animate();
  }
}
