/** Cleaning of chat names and messages: blanks collapse, unprintable bytes disappear. */
module ChatText {
  import opened Decimal

  /** The longest message; a longer source is cut before it is cleaned. */
  const MAX_MESSAGE: nat := 200

  predicate IsBlank(c: char) {
    IsSpace(c) || c < 32 as char || c == 127 as char
  }

  /** What has been written, and whether a blank waits to separate it from the next word. */
  datatype Progress = Progress(out: string, pending: bool)

  const NOTHING := Progress("", false)

  function Taken(p: Progress, c: char): Progress {
    if IsBlank(c) then Progress(p.out, p.out != "")
    else if c > 126 as char then p
    else Progress(p.out + (if p.pending then " " else "") + [c], false)
  }

  /** Characters are taken while there is room for one more and the terminator. */
  function Swept(p: Progress, source: string, size: nat): string
    decreases |source|
  {
    if source == "" || |p.out| + 1 >= size then p.out
    else Swept(Taken(p, source[0]), source[1..], size)
  }

  function Cut(source: string): string {
    if |source| <= MAX_MESSAGE then source else source[..MAX_MESSAGE]
  }

  function Sanitized(source: string, size: nat): string {
    Swept(NOTHING, Cut(source), size)
  }

  method SanitizeText(source: string, size: nat) returns (destination: string)
    ensures destination == Sanitized(source, size)
  {
    hide Taken;
    var copy := Cut(source);
    destination := "";
    var pending, next := false, 0;
    while next < |copy| && |destination| + 1 < size
      invariant 0 <= next <= |copy|
      invariant Swept(Progress(destination, pending), copy[next..], size) == Sanitized(source, size)
    {
      var c := copy[next];
      TakenCharacter(destination, pending, c);
      assert copy[next..][1..] == copy[next + 1..] && copy[next..][0] == c;
      next := next + 1;
      if IsBlank(c) {
        pending := destination != "";
        continue;
      }
      if c > 126 as char {
        continue;
      }
      if pending {
        destination := destination + " ";
      }
      pending := false;
      destination := destination + [c];
    }
  }

  lemma TakenCharacter(out: string, pending: bool, c: char)
    ensures Taken(Progress(out, pending), c) ==
              if IsBlank(c) then Progress(out, out != "")
              else if c > 126 as char then Progress(out, pending)
              else Progress((if pending then out + " " else out) + [c], false)
  {
    assert out + "" == out;
  }

  // ----- clean text -----

  /** Printable, with single blanks between words only. */
  predicate IsClean(s: string) {
    && (forall i :: 0 <= i < |s| ==> ' ' <= s[i] <= '~')
    && (s != "" ==> s[0] != ' ' && s[|s| - 1] != ' ')
    && forall i :: 0 <= i < |s| - 1 ==> s[i] != ' ' || s[i + 1] != ' '
  }

  predicate IsTidy(p: Progress) {
    IsClean(p.out) && (p.pending ==> p.out != "")
  }

  lemma TakingKeepsTidy(p: Progress, c: char)
    requires IsTidy(p)
    ensures IsTidy(Taken(p, c))
  {
    if !IsBlank(c) && c <= 126 as char {
      var out := Taken(p, c).out;
      assert out == if p.pending then p.out + [' ', c] else p.out + [c];
    }
  }

  lemma {:induction false} SweptIsClean(p: Progress, source: string, size: nat)
    requires IsTidy(p)
    ensures IsClean(Swept(p, source, size))
    ensures |Swept(p, source, size)| <= |p.out| + (if p.pending then 1 else 0) + |source|
    decreases |source|
  {
    if source != "" && |p.out| + 1 < size {
      TakingKeepsTidy(p, source[0]);
      SweptIsClean(Taken(p, source[0]), source[1..], size);
    }
  }

  /** Cleaned text is clean and no longer than its source. */
  lemma SanitizedIsClean(source: string, size: nat)
    ensures IsClean(Sanitized(source, size))
    ensures |Sanitized(source, size)| <= |Cut(source)|
  {
    SweptIsClean(NOTHING, Cut(source), size);
  }

  /** After the first i characters of a clean text. */
  function CleanProgress(s: string, i: nat): Progress
    requires i <= |s|
  {
    if i > 0 && s[i - 1] == ' ' then Progress(s[..i - 1], true) else Progress(s[..i], false)
  }

  lemma {:induction false} CleanIsSweptWhole(s: string, i: nat, size: nat)
    requires IsClean(s) && i <= |s| < size
    ensures Swept(CleanProgress(s, i), s[i..], size) == s
    decreases |s| - i
  {
    if i == |s| {
      assert s[..i] == s;
    } else {
      var p := CleanProgress(s, i);
      assert Taken(p, s[i]) == CleanProgress(s, i + 1) by {
        assert s[..i + 1] == s[..i] + [s[i]];
        if i > 0 && s[i - 1] == ' ' {
          assert s[i - 1] != ' ' || s[i - 1 + 1] != ' ';
          assert s[..i] == s[..i - 1] + " ";
        }
      }
      assert s[i..][1..] == s[i + 1..];
      CleanIsSweptWhole(s, i + 1, size);
    }
  }

  /** Clean text that fits is left alone, so cleaning twice is cleaning once. */
  lemma CleanTextIsKept(s: string, size: nat)
    requires IsClean(s) && |s| <= MAX_MESSAGE && |s| < size
    ensures Sanitized(s, size) == s
  {
    CleanIsSweptWhole(s, 0, size);
    assert s[0..] == s;
  }

  // ----- what is kept, and where it is cut -----

  /** The cleaned text when there is room for all of it. */
  function Collapsed(p: Progress, source: string): string
    decreases |source|
  {
    if source == "" then p.out else Collapsed(Taken(p, source[0]), source[1..])
  }

  /** The visible characters of a text. */
  function Visible(s: string): string {
    if s == "" then ""
    else Visible(s[..|s| - 1]) + (if ' ' < s[|s| - 1] <= '~' then [s[|s| - 1]] else "")
  }

  lemma {:induction false} VisibleAppend(a: string, b: string)
    ensures Visible(a + b) == Visible(a) + Visible(b)
  {
    if b == "" {
      assert a + b == a;
    } else {
      assert (a + b)[..|a + b| - 1] == a + b[..|b| - 1];
      VisibleAppend(a, b[..|b| - 1]);
    }
  }

  lemma VisibleOne(c: char)
    ensures Visible([c]) == if ' ' < c <= '~' then [c] else ""
  {
    assert [c][..0] == "";
  }

  lemma TakingKeepsVisible(p: Progress, c: char)
    ensures Visible(Taken(p, c).out) == Visible(p.out) + Visible([c])
    ensures p.out <= Taken(p, c).out
  {
    hide Visible;
    VisibleOne(c);
    VisibleOne(' ');
    TakenCharacter(p.out, p.pending, c);
    VisibleAppend(p.out, " ");
    VisibleAppend(p.out + " ", [c]);
    VisibleAppend(p.out, [c]);
  }

  lemma {:induction false} CollapsingKeepsVisible(p: Progress, source: string)
    ensures Visible(Collapsed(p, source)) == Visible(p.out) + Visible(source)
    ensures p.out <= Collapsed(p, source)
    decreases |source|
  {
    hide Taken;
    if source != "" {
      hide Visible;
      TakingKeepsVisible(p, source[0]);
      CollapsingKeepsVisible(Taken(p, source[0]), source[1..]);
      assert source == [source[0]] + source[1..];
      VisibleAppend([source[0]], source[1..]);
    }
  }

  /** Where a buffer of the given size ends the text; a separator that would come last takes the
      character after it along. */
  function Clipped(full: string, size: nat): string
    requires size >= 2
  {
    if |full| < size then full
    else if full[size - 2] == ' ' then full[..size]
    else full[..size - 1]
  }

  /** A character that leaves no room for another one. */
  lemma FullBufferIsClipped(p: Progress, c: char, full: string, size: nat)
    requires IsTidy(p) && size >= 2 && |p.out| + 1 < size <= |Taken(p, c).out| + 1
    requires Taken(p, c).out <= full
    ensures Clipped(full, size) == Taken(p, c).out
  {
    TakenCharacter(p.out, p.pending, c);
    var out := Taken(p, c).out;
    assert out == full[..|out|];
    if p.pending {
      assert out[|p.out|] == ' ';
    }
  }

  lemma {:induction false} SweptIsClipped(p: Progress, source: string, size: nat)
    requires IsTidy(p) && size >= 2 && |p.out| + 1 < size
    ensures Swept(p, source, size) == Clipped(Collapsed(p, source), size)
    decreases |source|
  {
    hide Taken, IsClean;
    if source != "" {
      var next := Taken(p, source[0]);
      TakingKeepsTidy(p, source[0]);
      if |next.out| + 1 < size {
        SweptIsClipped(next, source[1..], size);
      } else {
        hide Clipped;
        CollapsingKeepsVisible(next, source[1..]);
        FullBufferIsClipped(p, source[0], Collapsed(p, source), size);
      }
    }
  }

  /** The cleaned text holds the visible characters of its source in order, as far as the buffer
      reaches; it leaves room for the terminator exactly when it does not end on a separator that
      fell on the last place. */
  lemma SanitizedIsTheClippedCollapse(source: string, size: nat)
    requires size >= 2
    ensures var full := Collapsed(NOTHING, Cut(source));
            && Visible(full) == Visible(Cut(source))
            && Sanitized(source, size) == Clipped(full, size)
            && (|Sanitized(source, size)| < size <==> !(|full| >= size && full[size - 2] == ' '))
  {
    SweptIsClipped(NOTHING, Cut(source), size);
    CollapsingKeepsVisible(NOTHING, Cut(source));
  }

  // ----- word by word -----

  /** The words of a text: control characters, blanks and the delete character end a word, characters
      beyond ASCII are passed over, and some words may be empty. */
  function Words(s: string): (words: seq<string>)
    ensures words != []
  {
    if s == "" then [""] else Extended(Words(s[..|s| - 1]), s[|s| - 1])
  }

  function Extended(words: seq<string>, c: char): (longer: seq<string>)
    requires words != []
    ensures longer != []
  {
    var n := |words| - 1;
    if c as int <= 32 || c as int == 127 then words + [""]
    else if c as int < 127 then words[..n] + [words[n] + [c]]
    else words
  }

  /** The words that are not empty, with single blanks between them. */
  function Lined(words: seq<string>): string {
    if words == [] then ""
    else
      var line, word := Lined(words[..|words| - 1]), words[|words| - 1];
      if word == "" then line else if line == "" then word else line + " " + word
  }

  function ProgressOf(s: string): Progress {
    if s == "" then NOTHING else Taken(ProgressOf(s[..|s| - 1]), s[|s| - 1])
  }

  lemma {:induction false} CollapsedFromProgress(front: string, rest: string)
    ensures Collapsed(ProgressOf(front), rest) == ProgressOf(front + rest).out
    decreases |rest|
  {
    hide Taken;
    if rest == "" {
      assert front + rest == front;
    } else {
      var next := front + [rest[0]];
      assert next[..|front|] == front && front + rest == next + rest[1..];
      CollapsedFromProgress(next, rest[1..]);
    }
  }

  lemma LinedAppend(words: seq<string>, word: string)
    ensures Lined(words + [word]) ==
            if word == "" then Lined(words)
            else if Lined(words) == "" then word else Lined(words) + " " + word
  {
    assert (words + [word])[..|words|] == words;
  }

  ghost predicate IsLined(p: Progress, words: seq<string>)
    requires words != []
  {
    && p.out == Lined(words)
    && (p.pending <==> words[|words| - 1] == "" && p.out != "")
  }

  lemma BlankIsLined(p: Progress, words: seq<string>)
    requires words != [] && IsLined(p, words)
    ensures IsLined(Progress(p.out, p.out != ""), words + [""])
  {
    hide Lined;
    LinedAppend(words, "");
  }

  lemma LetterIsLined(p: Progress, front: seq<string>, last: string, c: char)
    requires IsLined(p, front + [last])
    ensures IsLined(Progress((if p.pending then p.out + " " else p.out) + [c], false),
                    front + [last + [c]])
  {
    hide Lined;
    LinedAppend(front, last);
    LinedAppend(front, last + [c]);
    assert Lined(front) + " " + (last + [c]) == Lined(front) + " " + last + [c];
    if last == "" {
      assert last + [c] == [c];
      assert Lined(front) == "" ==> p.out + [c] == [c];
    }
  }

  lemma TakenIsLined(p: Progress, words: seq<string>, c: char)
    requires words != [] && IsLined(p, words)
    ensures IsLined(Taken(p, c), Extended(words, c))
  {
    hide IsLined;
    TakenCharacter(p.out, p.pending, c);
    if IsBlank(c) {
      BlankIsLined(p, words);
    } else if c <= 126 as char {
      var n := |words| - 1;
      assert words == words[..n] + [words[n]];
      LetterIsLined(p, words[..n], words[n], c);
    }
  }

  lemma {:induction false} ProgressIsLined(s: string)
    ensures IsLined(ProgressOf(s), Words(s))
  {
    hide IsLined, Taken, Extended;
    if s == "" {
      NothingIsLined();
    } else {
      ProgressIsLined(s[..|s| - 1]);
      TakenIsLined(ProgressOf(s[..|s| - 1]), Words(s[..|s| - 1]), s[|s| - 1]);
    }
  }

  lemma NothingIsLined()
    ensures IsLined(NOTHING, [""])
  {
    NoWords();
    LinedAppend([], "");
    assert [] + [""] == [""];
  }

  lemma NoWords()
    ensures Lined([]) == ""
  {
  }

  /** With room for all of it the cleaned text is the words of its source, cut at 200 characters, with
      single blanks between them. */
  lemma SanitizedIsItsWords(source: string, size: nat)
    requires |Lined(Words(Cut(source)))| < size
    ensures Sanitized(source, size) ==
            Lined(Words(if |source| > 200 then source[..200] else source))
  {
    hide Lined, Words, Collapsed, Swept;
    var cut := Cut(source);
    assert "" + cut == cut;
    CollapsedFromProgress("", cut);
    ProgressIsLined(cut);
    if size == 1 {
      NothingFits(cut);
    } else {
      SanitizedIsTheClippedCollapse(source, size);
    }
  }

  lemma NothingFits(source: string)
    ensures Swept(NOTHING, source, 1) == ""
  {
  }
}
