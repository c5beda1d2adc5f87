// Completing a shell-like command line: how a partial line is parsed, how a completion is
// quoted, and that the quoted text parses back to the completion.
module Completion {

  // What Unicode counts as white space.
  predicate IsSpace(c: char) {
    || c in "\t\n\U{b}\U{c}\r " || c == '\U{85}' || c == '\U{a0}' || c == '\U{1680}' || '\U{2000}' <= c <= '\U{200a}'
    || c == '\U{2028}' || c == '\U{2029}' || c == '\U{202f}' || c == '\U{205f}' || c == '\U{3000}'
  }

  datatype Quote = Bare | Single | Double {
    function Mark(): string {
      match this case Bare => "" case Single => "'" case Double => "\""
    }
  }

  // The parser between two characters: the finished tokens, the current one so far, where
  // it starts, whether it has begun, the open quote, and whether a backslash is pending.
  datatype State = State(values: seq<string>, value: string, start: nat, started: bool, quote: Quote, escaped: bool)

  function Step(s: State, c: char, index: nat): State {
    if s.escaped then s.(value := s.value + [c], escaped := false, started := true)
    else
      match s.quote
      case Single =>
        if c == '\'' then s.(quote := Bare, started := true) else s.(value := s.value + [c], started := true)
      case Double =>
        if c == '"' then s.(quote := Bare, started := true)
        else if c == '\\' then s.(escaped := true, started := true)
        else s.(value := s.value + [c], started := true)
      case Bare =>
        if IsSpace(c) then
          if s.started then State(s.values + [s.value], "", index + 1, false, Bare, false) else s.(start := index + 1)
        else if c == '\\' then s.(escaped := true, started := true)
        else if c == '\'' then s.(quote := Single, started := true)
        else if c == '"' then s.(quote := Double, started := true)
        else s.(value := s.value + [c], started := true)
  }

  function Scan(line: string): State {
    if line == "" then State([], "", 0, false, Bare, false)
    else Step(Scan(line[..|line| - 1]), line[|line| - 1], |line| - 1)
  }

  datatype Input = Input(values: seq<string>, raw: string, value: string, quote: Quote)

  lemma {:induction false} StartWithinLine(line: string)
    ensures Scan(line).start <= |line|
  {
    if line != "" {
      StartWithinLine(line[..|line| - 1]);
    }
  }

  method ParseCompletionInput(line: string) returns (input: Input)
    ensures Scan(line).start <= |line|
    ensures var s := Scan(line); input == Input(s.values + [s.value], line[s.start..], s.value, s.quote)
  {
    hide IsSpace;
    var values: seq<string>, value, tokenStart, tokenStarted := [], "", 0, false;
    var quote, escaped := Bare, false;
    for index := 0 to |line|
      invariant Scan(line[..index]) == State(values, value, tokenStart, tokenStarted, quote, escaped)
    {
      var character := line[index];
      assert line[..index + 1][..index] == line[..index];
      if escaped {
        value, escaped, tokenStarted := value + [character], false, true;
        continue;
      }
      match quote
      case Single =>
        if character == '\'' {
          quote := Bare;
        } else {
          value := value + [character];
        }
        tokenStarted := true;
      case Double =>
        if character == '"' {
          quote := Bare;
        } else if character == '\\' {
          escaped := true;
        } else {
          value := value + [character];
        }
        tokenStarted := true;
      case Bare =>
        if IsSpace(character) {
          if tokenStarted {
            values, value, tokenStarted := values + [value], "", false;
          }
          tokenStart := index + 1;
        } else {
          if character == '\\' {
            escaped := true;
          } else if character == '\'' {
            quote := Single;
          } else if character == '"' {
            quote := Double;
          } else {
            value := value + [character];
          }
          tokenStarted := true;
        }
    }
    assert line[..|line|] == line;
    StartWithinLine(line);
    input := Input(values + [value], line[tokenStart..], value, quote);
  }

  // ----- quoting

  // Whether a character stands for itself under a quote.
  predicate Plain(c: char, quote: Quote) {
    match quote
    case Single => c != '\''
    case Double => c !in "\\\"$`"
    case Bare => !IsSpace(c) && c !in "\\\"'"
  }

  function EncodeChar(c: char, quote: Quote): string {
    if Plain(c, quote) then [c] else if quote == Single then "'\\''" else ['\\', c]
  }

  function Encode(value: string, quote: Quote): string {
    if value == "" then "" else Encode(value[..|value| - 1], quote) + EncodeChar(value[|value| - 1], quote)
  }

  method EncodeCompletionFragment(value: string, quote: Quote) returns (result: string)
    ensures result == Encode(value, quote)
  {
    hide IsSpace;
    result := "";
    for index := 0 to |value|
      invariant result == Encode(value[..index], quote)
    {
      var character := value[index];
      assert value[..index + 1][..index] == value[..index];
      match quote
      case Single =>
        if character == '\'' {
          result := result + "'\\''";
        } else {
          result := result + [character];
        }
      case Double =>
        if character in "\\\"$`" {
          result := result + "\\";
        }
        result := result + [character];
      case Bare =>
        if IsSpace(character) || character in "\\\"'" {
          result := result + "\\";
        }
        result := result + [character];
    }
    assert value[..|value|] == value;
  }

  // ----- parsing what was quoted

  function Feed(s: State, text: string, index: nat): State {
    if text == "" then s else Step(Feed(s, text[..|text| - 1], index), text[|text| - 1], index + |text| - 1)
  }

  lemma {:induction false} ScanAppend(line: string, text: string)
    ensures Scan(line + text) == Feed(Scan(line), text, |line|)
  {
    hide Step;
    if text == "" {
      assert line + text == line;
    } else {
      ScanAppend(line, text[..|text| - 1]);
      assert (line + text)[..|line + text| - 1] == line + text[..|text| - 1];
    }
  }

  lemma {:induction false} FeedAppend(s: State, a: string, b: string, index: nat)
    ensures Feed(s, a + b, index) == Feed(Feed(s, a, index), b, index + |a|)
  {
    hide Step;
    if b == "" {
      assert a + b == a;
    } else {
      FeedAppend(s, a, b[..|b| - 1], index);
      assert (a + b)[..|a + b| - 1] == a + b[..|b| - 1];
    }
  }

  lemma FeedTwo(s: State, a: char, b: char, index: nat)
    ensures Feed(s, [a, b], index) == Step(Step(s, a, index), b, index + 1)
  {
    hide Step;
    assert [a, b][..1] == [a] && [a][..0] == "";
    assert Feed(s, [a], index) == Step(Feed(s, "", index), a, index);
  }

  lemma MarksAreNotSpace()
    ensures !IsSpace('\\') && !IsSpace('\'') && !IsSpace('"') && IsSpace(' ')
  {
  }

  lemma CharReadsBack(s: State, c: char, index: nat)
    requires !s.escaped
    ensures Feed(s, EncodeChar(c, s.quote), index) == s.(value := s.value + [c], started := true)
  {
    hide IsSpace, Feed;
    MarksAreNotSpace();
    FeedOne(s, c, index);
    if !Plain(c, s.quote) {
      FeedTwo(s, '\\', c, index);
      if s.quote == Single {
        FeedTwo(s, '\'', '\\', index);
        var middle := Feed(s, "'\\", index);
        FeedTwo(middle, '\'', '\'', index + 2);
        FeedAppend(s, "'\\", "''", index);
        assert "'\\" + "''" == "'\\''";
      }
    }
  }

  lemma FeedOne(s: State, c: char, index: nat)
    ensures Feed(s, [c], index) == Step(s, c, index) && Feed(s, "", index) == s
  {
    hide Step;
    assert [c][..0] == "";
  }

  // Feeding a quoted text to the parser adds the text to the current token.
  lemma {:induction false} QuotedReadsBack(s: State, value: string, index: nat)
    requires !s.escaped
    ensures Feed(s, Encode(value, s.quote), index) == s.(value := s.value + value, started := s.started || value != "")
  {
    hide Step, EncodeChar, Feed;
    FeedOne(s, ' ', index);
    if value == "" {
      assert s.value + value == s.value;
    } else {
      var init, last := value[..|value| - 1], value[|value| - 1];
      QuotedReadsBack(s, init, index);
      FeedAppend(s, Encode(init, s.quote), EncodeChar(last, s.quote), index);
      CharReadsBack(Feed(s, Encode(init, s.quote), index), last, index + |Encode(init, s.quote)|);
      assert s.value + init + [last] == s.value + value;
    }
  }

  // ----- a pending backslash

  // Text that survives being put after a pending backslash: backslashes, then nothing or a
  // character that stands for itself.
  predicate Survives(value: string, quote: Quote) {
    value == "" || Plain(value[0], quote) || (value[0] == '\\' && Survives(value[1..], quote))
  }

  // Tokens are never taken back, nor are characters of the current one.
  ghost predicate Extends(before: State, after: State) {
    before.values <= after.values && (after.values == before.values ==> before.value <= after.value)
  }

  lemma {:induction false} FeedExtends(s: State, text: string, index: nat)
    ensures Extends(s, Feed(s, text, index))
  {
    hide IsSpace;
    if text != "" {
      FeedExtends(s, text[..|text| - 1], index);
    }
  }

  lemma {:induction false} EncodeFront(value: string, quote: Quote)
    requires value != ""
    ensures Encode(value, quote) == EncodeChar(value[0], quote) + Encode(value[1..], quote)
  {
    hide EncodeChar, Encode;
    if |value| == 1 {
      EncodeMore("", value[0], quote);
      assert value == "" + [value[0]] && value[1..] == "";
    } else {
      var init, last := value[..|value| - 1], value[|value| - 1];
      EncodeFront(init, quote);
      EncodeMore(init, last, quote);
      EncodeMore(init[1..], last, quote);
      assert value == init + [last] && value[1..] == init[1..] + [last];
    }
  }

  lemma EncodeMore(value: string, c: char, quote: Quote)
    ensures Encode(value + [c], quote) == Encode(value, quote) + EncodeChar(c, quote) && Encode("", quote) == ""
  {
    hide EncodeChar;
    assert (value + [c])[..|value|] == value;
  }

  ghost predicate Completes(before: State, after: State, value: string) {
    after.values == before.values && after.value == before.value + value && after.quote == before.quote
  }

  lemma {:induction false} PendingReadsBack(s: State, value: string, index: nat)
    requires s.escaped && s.quote != Single
    ensures Completes(s, Feed(s, Encode(value, s.quote), index), value) <==> Survives(value, s.quote)
    decreases |value|
  {
    hide IsSpace, Feed, Encode, Plain, Survives;
    MarksAreNotSpace();
    FeedOne(s, ' ', index);
    if value == "" {
      EmptyValue(s);
    } else {
      var c, rest := value[0], value[1..];
      EncodeFront(value, s.quote);
      FeedAppend(s, EncodeChar(c, s.quote), Encode(rest, s.quote), index);
      FeedOne(s, c, index);
      FeedTwo(s, '\\', c, index);
      SurvivesStep(value, s.quote);
      var after := index + |EncodeChar(c, s.quote)|;
      if Plain(c, s.quote) {
        QuotedReadsBack(s.(value := s.value + [c], escaped := false, started := true), rest, after);
        assert s.value + [c] + rest == s.value + value;
      } else {
        var next := Step(Step(s, '\\', index), c, index + 1);
        if c == '\\' {
          PendingReadsBack(next, rest, after);
          assert s.value + [c] + rest == s.value + value;
        } else {
          LostBackslash(s, c, index);
          FeedExtends(next, Encode(rest, s.quote), after);
          assert (s.value + value)[|s.value|] == c;
        }
      }
    }
  }

  lemma EmptyValue(s: State)
    ensures Encode("", s.quote) == "" && Survives("", s.quote) && s.value + "" == s.value
  {
  }

  lemma SurvivesStep(value: string, quote: Quote)
    requires value != ""
    ensures Survives(value, quote) <==> Plain(value[0], quote) || (value[0] == '\\' && Survives(value[1..], quote))
  {
  }

  // The backslash meant to quote the character is itself taken literally.
  lemma LostBackslash(s: State, c: char, index: nat)
    requires s.escaped && s.quote != Single && c != '\\'
    ensures var next := Step(Step(s, '\\', index), c, index + 1);
      |next.values| > |s.values|
        || (next.values == s.values && |next.value| > |s.value| && next.value[|s.value|] == '\\')
  {
    hide IsSpace;
  }

  // ----- completing a line

  lemma {:induction false} PendingIsNotSingle(line: string)
    ensures Scan(line).escaped ==> Scan(line).quote != Single && Scan(line).started
    ensures Scan(line).quote != Bare ==> Scan(line).started
    ensures !Scan(line).started ==> Scan(line).value == ""
  {
    hide IsSpace;
    if line != "" {
      PendingIsNotSingle(line[..|line| - 1]);
    }
  }

  // Appending a quoted completion to a line parses back to the completed token, with the
  // same quote open, exactly when no backslash is pending or the text survives it.
  lemma CompletionReadsBackIff(line: string, suffix: string)
    ensures var s := Scan(line);
      Completes(s, Scan(line + Encode(suffix, s.quote)), suffix) <==> !s.escaped || Survives(suffix, s.quote)
  {
    hide Scan, Feed, Encode, Survives;
    var s := Scan(line);
    PendingIsNotSingle(line);
    ScanAppend(line, Encode(suffix, s.quote));
    if s.escaped {
      PendingReadsBack(s, suffix, |line|);
    } else {
      QuotedReadsBack(s, suffix, |line|);
    }
  }

  // What is added after a finished completion: the closing quote and a space.
  function Closing(quote: Quote): string { quote.Mark() + " " }

  predicate AllBackslashes(text: string) { forall i | 0 <= i < |text| :: text[i] == '\\' }

  // The token is finished and the next one is about to start.
  ghost predicate Closed(values: seq<string>, after: State, token: string) {
    && after.values == values + [token]
    && after.value == "" && after.quote == Bare && !after.started && !after.escaped
  }

  // What a text that survives a pending backslash leaves: a backslash pending again exactly
  // when it is nothing but backslashes.
  lemma {:induction false} PendingLeaves(s: State, value: string, index: nat)
    requires s.escaped && s.started && s.quote != Single && Survives(value, s.quote)
    ensures Feed(s, Encode(value, s.quote), index) == s.(value := s.value + value, escaped := AllBackslashes(value))
    decreases |value|
  {
    hide IsSpace, Feed, Encode, Plain, Survives;
    MarksAreNotSpace();
    FeedOne(s, ' ', index);
    if value == "" {
      EmptyValue(s);
    } else {
      var c, rest := value[0], value[1..];
      EncodeFront(value, s.quote);
      FeedAppend(s, EncodeChar(c, s.quote), Encode(rest, s.quote), index);
      FeedOne(s, c, index);
      FeedTwo(s, '\\', c, index);
      SurvivesStep(value, s.quote);
      BackslashIsNotPlain(s.quote);
      assert s.value + [c] + rest == s.value + value;
      var after := index + |EncodeChar(c, s.quote)|;
      if Plain(c, s.quote) {
        QuotedReadsBack(s.(value := s.value + [c], escaped := false), rest, after);
        assert !AllBackslashes(value);
      } else {
        PendingLeaves(Step(Step(s, '\\', index), c, index + 1), rest, after);
        assert AllBackslashes(value) <==> AllBackslashes(rest) by {
          assert forall i | 0 <= i < |rest| :: rest[i] == value[i + 1];
        }
      }
    }
  }

  lemma BackslashIsNotPlain(quote: Quote)
    ensures quote != Single ==> !Plain('\\', quote)
  {
    hide IsSpace;
  }

  // The n-th token, finished or current, differs from a text at a position.
  ghost predicate Differs(t: State, n: nat, text: string, p: nat) {
    && n <= |t.values| && p < |text|
    && var token := if n < |t.values| then t.values[n] else t.value;
      p < |token| && token[p] != text[p]
  }

  lemma {:induction false} StillDiffers(t: State, more: string, index: nat, n: nat, text: string, p: nat)
    requires Differs(t, n, text, p)
    ensures Differs(Feed(t, more, index), n, text, p)
  {
    hide IsSpace;
    if more != "" {
      StillDiffers(t, more[..|more| - 1], index, n, text, p);
    }
  }

  // A text that does not survive a pending backslash leaves a wrong token.
  lemma {:induction false} PendingSpoils(s: State, value: string, index: nat) returns (p: nat)
    requires s.escaped && s.quote != Single && !Survives(value, s.quote)
    ensures Differs(Feed(s, Encode(value, s.quote), index), |s.values|, s.value + value, p)
    decreases |value|
  {
    hide IsSpace, Feed, Encode, Plain, Survives, Differs;
    MarksAreNotSpace();
    EmptyValue(s);
    var c, rest := value[0], value[1..];
    EncodeFront(value, s.quote);
    FeedAppend(s, EncodeChar(c, s.quote), Encode(rest, s.quote), index);
    FeedTwo(s, '\\', c, index);
    SurvivesStep(value, s.quote);
    var next, after := Step(Step(s, '\\', index), c, index + 1), index + |EncodeChar(c, s.quote)|;
    if c == '\\' {
      p := PendingSpoils(next, rest, after);
      assert s.value + [c] + rest == s.value + value;
    } else {
      p := |s.value|;
      SpoiledHere(s, c, index, value);
      StillDiffers(next, Encode(rest, s.quote), after, |s.values|, s.value + value, p);
    }
  }

  lemma SpoiledHere(s: State, c: char, index: nat, value: string)
    requires s.escaped && s.quote != Single && c != '\\' && value != "" && value[0] == c
    ensures Differs(Step(Step(s, '\\', index), c, index + 1), |s.values|, s.value + value, |s.value|)
  {
    hide IsSpace;
    assert (s.value + value)[|s.value|] == c;
  }

  // What the closing leaves of a token whose last backslash is pending: it goes on.
  lemma PendingGoesOn(t: State, index: nat)
    requires t.escaped && t.quote != Single
    ensures Feed(t, Closing(t.quote), index).values == t.values
  {
    hide Feed;
    MarksAreNotSpace();
    if t.quote == Bare {
      assert Closing(t.quote) == [' '];
      FeedOne(t, ' ', index);
    } else {
      assert Closing(t.quote) == ['"', ' '];
      FeedTwo(t, '"', ' ', index);
    }
  }

  // A finished completion becomes one whole token, and the next one is about to start,
  // exactly when there is a token to finish at all and no backslash is pending; or when one
  // is and the text survives it without leaving one pending at its end.
  lemma FinishedClosesIff(line: string, suffix: string)
    ensures var s := Scan(line);
      var after := Scan(line + (Encode(suffix, s.quote) + Closing(s.quote)));
      Closed(s.values, after, s.value + suffix) <==>
        if s.escaped then Survives(suffix, s.quote) && !AllBackslashes(suffix)
        else s.quote != Bare || s.started || suffix != ""
    ensures var s := Scan(line);
      var after := Scan(line + (Encode(suffix, s.quote) + Closing(s.quote)));
      !s.escaped ==>
        && after.value == "" && after.quote == Bare && !after.started && !after.escaped
        && (s.quote == Bare && !s.started && suffix == "" ==> after.values == s.values)
  {
    hide Scan, Feed, Encode, Survives, Closing, Closed;
    var s := Scan(line);
    var text, index := Encode(suffix, s.quote), |line| + |Encode(suffix, s.quote)|;
    PendingIsNotSingle(line);
    ScanAppend(line, text + Closing(s.quote));
    FeedAppend(s, text, Closing(s.quote), |line|);
    if !s.escaped {
      QuotedReadsBack(s, suffix, |line|);
      ClosesIff(s, suffix, index);
    } else if Survives(suffix, s.quote) {
      PendingLeaves(s, suffix, |line|);
      var t := s.(value := s.value + suffix, escaped := AllBackslashes(suffix));
      if t.escaped {
        PendingGoesOn(t, index);
        NotClosed(s.values, Feed(t, Closing(s.quote), index), s.value + suffix);
      } else {
        assert t.value + "" == t.value;
        ClosesIff(t, "", index);
      }
    } else {
      var p := PendingSpoils(s, suffix, |line|);
      StillDiffers(Feed(s, text, |line|), Closing(s.quote), index, |s.values|, s.value + suffix, p);
      DiffersNotClosed(s, Feed(Feed(s, text, |line|), Closing(s.quote), index), s.value + suffix, p);
    }
  }

  lemma NotClosed(values: seq<string>, after: State, token: string)
    requires after.values == values
    ensures !Closed(values, after, token)
  {
    assert |values + [token]| == |values| + 1;
  }

  lemma DiffersNotClosed(s: State, after: State, token: string, p: nat)
    requires Differs(after, |s.values|, token, p)
    ensures !Closed(s.values, after, token)
  {
    assert (s.values + [token])[|s.values|] == token;
  }

  // Closing with no backslash pending.
  lemma ClosesIff(s: State, suffix: string, index: nat)
    requires !s.escaped && (s.quote != Bare ==> s.started) && (!s.started ==> s.value == "")
    ensures var filled := s.(value := s.value + suffix, started := s.started || suffix != "");
      var after := Feed(filled, Closing(s.quote), index);
      && after.value == "" && after.quote == Bare && !after.started && !after.escaped
      && (Closed(s.values, after, s.value + suffix) <==> s.quote != Bare || s.started || suffix != "")
      && (s.quote == Bare && !s.started && suffix == "" ==> after.values == s.values)
  {
    hide Feed;
    MarksAreNotSpace();
    var filled := s.(value := s.value + suffix, started := s.started || suffix != "");
    assert |s.values + [s.value + suffix]| == |s.values| + 1;
    if s.quote == Bare {
      assert Closing(s.quote) == [' '];
      FeedOne(filled, ' ', index);
    } else {
      assert Closing(s.quote) == [s.quote.Mark()[0], ' '];
      FeedTwo(filled, s.quote.Mark()[0], ' ', index);
    }
  }

  // A pending backslash quotes the backslash meant to quote a space: completing the line
  // \ with a space gives a backslash and ends the token.
  lemma PendingSpaceIsLost()
    ensures var s := Scan("\\");
      s.escaped && !Completes(s, Scan("\\" + Encode(" ", s.quote)), " ")
  {
    CompletionReadsBackIff("\\", " ");
    assert "\\"[..0] == "";
  }

  // Finishing an empty candidate on an empty line makes no token at all.
  lemma EmptyFinishMakesNoToken()
    ensures var s := Scan("");
      Scan("" + (Encode("", s.quote) + Closing(s.quote))).values == [] != [s.value + ""]
  {
    FinishedClosesIff("", "");
  }

  // ----- offering completions

  datatype Candidate = Candidate(value: string, finish: bool)

  // What is offered for a candidate: its quoted remainder, closed if it is finished.
  function Offer(input: Input, candidate: Candidate): string
    requires input.value <= candidate.value
  {
    Encode(candidate.value[|input.value|..], input.quote) + (if candidate.finish then Closing(input.quote) else "")
  }

  method FormatCompletions(input: Input, candidates: seq<Candidate>) returns (result: seq<string>, length: nat)
    ensures length == |input.raw|
    ensures forall i, j | 0 <= i < j < |result| :: result[i] != result[j]
    ensures forall text :: text in result <==> exists c ::
      c in candidates && input.value <= c.value && text == Offer(input, c)
  {
    hide Encode;
    result := [];
    var seen: set<string> := {};
    for i := 0 to |candidates|
      invariant forall text :: text in seen <==> text in result
      invariant forall i, j | 0 <= i < j < |result| :: result[i] != result[j]
      invariant forall text :: text in result <==>
        exists c :: c in candidates[..i] && input.value <= c.value && text == Offer(input, c)
    {
      var candidate := candidates[i];
      assert candidates[..i + 1] == candidates[..i] + [candidate];
      if input.value <= candidate.value {
        var encoded := EncodeCompletionFragment(candidate.value[|input.value|..], input.quote);
        if candidate.finish {
          if input.quote != Bare {
            encoded := encoded + input.quote.Mark();
          }
          encoded := encoded + " ";
        }
        assert encoded == Offer(input, candidate);
        if encoded !in seen {
          seen := seen + {encoded};
          result := result + [encoded];
        }
      }
    }
    assert candidates[..|candidates|] == candidates;
    length := |input.raw|;
  }
}
