/** The character-by-character tokenizer for Newick text used by the jplace
    reader (`JPlaceTree._tokenize_newick`). Structural characters `( ) , ; :`
    become tokens of their own, everything else accumulates into a label;
    single quotes escape, `[...]` comments nest and vanish, and unquoted
    whitespace inside a label is an error.

    The tokenizer in the source is a generator that the parser consumes
    lazily, so its output is modelled as the tokens produced before the first
    error together with a flag saying whether an error followed them. */
module NewickTokenizer {
  import opened Wrappers
  import opened Strings

  predicate IsStructural(c: char) {
    c == '(' || c == ')' || c == ',' || c == ';' || c == ':'
  }

  /** The tokenizer's flags. A Python `''` (no character seen yet, or reset
      after a doubled quote) is `None`. */
  datatype State = State(
    notEscaped: bool,
    labelStart: bool,
    lastNonWs: Option<char>,
    lastChar: Option<char>,
    commentDepth: nat,
    buffer: string)

  const Start := State(true, false, None, None, 0, [])

  predicate AfterQuote(st: State) {
    st.lastNonWs == Some('\'')
  }

  predicate LastCharIsSpace(st: State) {
    st.lastChar.Some? && IsSpace(st.lastChar.value)
  }

  /** `metadata.replace('_', ' ')`. */
  function Underscored(s: string): (r: string)
    ensures |r| == |s| && '_' !in r
    ensures forall k :: 0 <= k < |s| ==> r[k] == if s[k] == '_' then ' ' else s[k]
  {
    if s == [] then [] else [if s[0] == '_' then ' ' else s[0]] + Underscored(s[1..])
  }

  /** What one character does: the state after it, the tokens it yields, and
      whether it raised NewickFormatError. */
  datatype StepOut = StepOut(next: State, emitted: seq<string>, failed: bool)

  /** The label (if any) that a structural character flushes out of the
      buffer: unchanged after a closing quote or without conversion, with
      underscores turned into spaces otherwise, and nothing when empty. */
  function FlushedLabel(st: State, convert: bool): seq<string> {
    if AfterQuote(st) || !convert then [st.buffer]
    else if st.buffer != [] then [Underscored(st.buffer)]
    else []
  }

  function StepChar(st: State, c: char, convert: bool): StepOut {
    var depth :=
      if c == '[' && st.notEscaped && (!AfterQuote(st) || st.commentDepth == 0)
      then st.commentDepth + 1 else st.commentDepth;
    if depth > 0 then
      var depth' := if c == ']' && !AfterQuote(st) then depth - 1 else depth;
      StepOut(st.(commentDepth := depth', lastNonWs := Some(c)), [], false)
    else if st.notEscaped && IsStructural(c) then
      StepOut(st.(labelStart := false, buffer := [], lastChar := Some(c), lastNonWs := Some(c)),
              FlushedLabel(st, convert) + [[c]], false)
    else if c == '\'' then
      if AfterQuote(st) then
        StepOut(st.(notEscaped := !st.notEscaped, labelStart := true, buffer := st.buffer + [c],
                    lastNonWs := None, lastChar := None), [], false)
      else
        StepOut(st.(notEscaped := !st.notEscaped, labelStart := true,
                    lastChar := Some(c), lastNonWs := Some(c)), [], false)
    else if !IsSpace(c) || !st.notEscaped then
      if st.labelStart && LastCharIsSpace(st) && st.notEscaped then StepOut(st, [], true)
      else StepOut(st.(buffer := st.buffer + [c], labelStart := true,
                       lastChar := Some(c), lastNonWs := Some(c)), [], false)
    else
      StepOut(st.(lastChar := Some(c)), [], false)
  }

  /** The tokens yielded while reading `s` from state `st`, whether reading
      stopped at an error, and the state reached. */
  datatype Run = Run(tokens: seq<string>, failed: bool, final: State)

  function RunFrom(st: State, s: string, convert: bool): Run
    decreases |s|
  {
    if s == [] then Run([], false, st)
    else
      var o := StepChar(st, s[0], convert);
      if o.failed then Run([], true, o.next)
      else
        var r := RunFrom(o.next, s[1..], convert);
        Run(o.emitted + r.tokens, r.failed, r.final)
  }

  function Tokenize(s: string, convert: bool): Run {
    RunFrom(Start, s, convert)
  }

  /** The tokenizer as the source runs it: one pass over the characters,
      updating the flags in place. It returns the tokens yielded and whether
      a NewickFormatError ended the stream. */
  method TokenizeNewick(s: string, convertUnderscores: bool) returns (tokens: seq<string>, failed: bool)
    ensures tokens == Tokenize(s, convertUnderscores).tokens
    ensures failed == Tokenize(s, convertUnderscores).failed
  {
    var st := Start;
    tokens, failed := [], false;
    ghost var whole := Tokenize(s, convertUnderscores);
    assert s[0..] == s;
    for i := 0 to |s|
      invariant var r := RunFrom(st, s[i..], convertUnderscores);
                whole == Run(tokens + r.tokens, r.failed, r.final)
    {
      ghost var before := st;
      var emitted;
      st, emitted, failed := ReadChar(st, s[i], convertUnderscores);
      UnfoldRun(before, s, i, convertUnderscores, StepOut(st, emitted, failed));
      if failed {
        AppendEmpty(tokens);
        return;
      }
      ghost var rest := RunFrom(st, s[i + 1..], convertUnderscores);
      AppendAssoc(tokens, emitted, rest.tokens);
      tokens := tokens + emitted;
    }
    AppendEmpty(tokens);
  }

  /** The body of the tokenizer's loop for one character. */
  method ReadChar(st: State, c: char, convertUnderscores: bool)
    returns (next: State, emitted: seq<string>, failed: bool)
    ensures StepOut(next, emitted, failed) == StepChar(st, c, convertUnderscores)
  {
    var notEscaped, labelStart, lastNonWs, lastChar, commentDepth, buffer :=
      st.notEscaped, st.labelStart, st.lastNonWs, st.lastChar, st.commentDepth, st.buffer;
    emitted, failed := [], false;
    if c == '[' && notEscaped {
      if lastNonWs != Some('\'') || commentDepth == 0 {
        commentDepth := commentDepth + 1;
      }
    }
    if commentDepth > 0 {
      if c == ']' && lastNonWs != Some('\'') {
        commentDepth := commentDepth - 1;
      }
      lastNonWs := Some(c);
      next := State(notEscaped, labelStart, lastNonWs, lastChar, commentDepth, buffer);
      return;
    }
    if notEscaped && IsStructural(c) {
      labelStart := false;
      var metadata := buffer;
      if lastNonWs == Some('\'') || !convertUnderscores {
        emitted := emitted + [metadata];
      } else if metadata != [] {
        emitted := emitted + [Underscored(metadata)];
      }
      buffer := [];
      emitted := emitted + [[c]];
    } else if c == '\'' {
      notEscaped := !notEscaped;
      labelStart := true;
      if lastNonWs == Some('\'') {
        buffer := buffer + [c];
        lastNonWs := None;
        lastChar := None;
        next := State(notEscaped, labelStart, lastNonWs, lastChar, commentDepth, buffer);
        return;
      }
    } else if !IsSpace(c) || !notEscaped {
      if labelStart && lastChar.Some? && IsSpace(lastChar.value) && notEscaped {
        next, failed := st, true;
        return;
      }
      buffer := buffer + [c];
      labelStart := true;
    } else {
      lastChar := Some(c);
      next := State(notEscaped, labelStart, lastNonWs, lastChar, commentDepth, buffer);
      return;
    }
    lastChar := Some(c);
    lastNonWs := Some(c);
    next := State(notEscaped, labelStart, lastNonWs, lastChar, commentDepth, buffer);
  }

  /** One character of the remaining input: reading `s[i..]` is stepping over
      `s[i]` and then reading `s[i + 1..]`. */
  lemma UnfoldRun(st: State, s: string, i: nat, convert: bool, o: StepOut)
    requires i < |s| && o == StepChar(st, s[i], convert)
    ensures var r := RunFrom(o.next, s[i + 1..], convert);
            RunFrom(st, s[i..], convert)
              == if o.failed then Run([], true, o.next) else Run(o.emitted + r.tokens, r.failed, r.final)
  {
    assert s[i..][0] == s[i] && s[i..][1..] == s[i + 1..];
  }

  // ---------------------------------------------------------------------------
  // Properties of the tokenizer
  // ---------------------------------------------------------------------------

  /** Reading `a + b` is reading `a` and then, unless that failed, reading `b`
      from where `a` left off. */
  lemma {:induction false} RunAppend(st: State, a: string, b: string, convert: bool)
    decreases |a|
    ensures var ra := RunFrom(st, a, convert);
            var rb := RunFrom(ra.final, b, convert);
            RunFrom(st, a + b, convert)
              == if ra.failed then ra else Run(ra.tokens + rb.tokens, rb.failed, rb.final)
  {
    if a == [] {
      assert a + b == b;
    } else {
      assert (a + b)[0] == a[0] && (a + b)[1..] == a[1..] + b;
      var o := StepChar(st, a[0], convert);
      if !o.failed {
        RunAppend(o.next, a[1..], b, convert);
        var ra' := RunFrom(o.next, a[1..], convert);
        var rb := RunFrom(ra'.final, b, convert);
        AppendAssoc(o.emitted, ra'.tokens, rb.tokens);
      }
    }
  }

  /** Outside quotes and comments a structural character is a token of its
      own. It is preceded by the buffered label when that is non-empty or
      when a quote closed it (then possibly empty), and the buffer is
      cleared. */
  lemma StructuralIsOwnToken(st: State, c: char, convert: bool)
    requires st.notEscaped && st.commentDepth == 0 && IsStructural(c)
    ensures var o := StepChar(st, c, convert);
            && !o.failed
            && o.next.buffer == [] && !o.next.labelStart
            && |o.emitted| >= 1 && o.emitted[|o.emitted| - 1] == [c]
            && (|o.emitted| == 2 <==> st.buffer != [] || AfterQuote(st) || !convert)
            && (|o.emitted| == 2 && convert && !AfterQuote(st) ==> o.emitted[0] == Underscored(st.buffer))
            && (|o.emitted| == 2 && (AfterQuote(st) || !convert) ==> o.emitted[0] == st.buffer)
            && |o.emitted| <= 2
  {
  }

  /** A character that may stand in an unquoted label. */
  predicate PlainLabelChar(c: char) {
    !IsSpace(c) && !IsStructural(c) && c != '\'' && c != '[' && c != ']'
  }

  /** A state in which an unquoted label may continue without error. */
  predicate InPlainLabel(st: State) {
    st.notEscaped && st.commentDepth == 0 && !(st.labelStart && LastCharIsSpace(st))
  }

  lemma {:induction false} PlainCharsBuffer(st: State, w: string, convert: bool)
    requires InPlainLabel(st)
    requires forall k :: 0 <= k < |w| ==> PlainLabelChar(w[k])
    decreases |w|
    ensures var r := RunFrom(st, w, convert);
            && r.tokens == [] && !r.failed
            && r.final.buffer == st.buffer + w
            && InPlainLabel(r.final)
            && (w != [] ==> r.final.lastNonWs == Some(w[|w| - 1]))
            && (w == [] ==> r.final == st)
  {
    if w != [] {
      var o := StepChar(st, w[0], convert);
      assert o.next.buffer == st.buffer + [w[0]];
      PlainCharsBuffer(o.next, w[1..], convert);
      assert st.buffer + [w[0]] + w[1..] == st.buffer + w;
    }
  }

  /** An unquoted label followed by a structural character is yielded as one
      token, with every `_` turned into a space when conversion is on, and
      then the structural character. */
  lemma UnquotedLabel(st: State, w: string, c: char, convert: bool)
    requires InPlainLabel(st) && st.buffer == []
    requires w != [] && forall k :: 0 <= k < |w| ==> PlainLabelChar(w[k])
    requires IsStructural(c)
    ensures RunFrom(st, w + [c], convert).tokens == [if convert then Underscored(w) else w, [c]]
    ensures !RunFrom(st, w + [c], convert).failed
  {
    RunAppend(st, w, [c], convert);
    PlainCharsBuffer(st, w, convert);
    var fin := RunFrom(st, w, convert).final;
    assert PlainLabelChar(w[|w| - 1]) && !AfterQuote(fin);
    assert fin.buffer == w;
    assert StepChar(fin, c, convert).emitted == [if convert then Underscored(w) else w, [c]];
    assert [c][1..] == [];
  }

  /** Inside a quoted literal every character other than a quote, structural
      characters and whitespace included, is appended to the label. */
  lemma QuotedCharIsLiteral(st: State, c: char, convert: bool)
    requires !st.notEscaped && st.commentDepth == 0 && c != '\''
    ensures var o := StepChar(st, c, convert);
            && !o.failed && o.emitted == []
            && o.next.buffer == st.buffer + [c] && !o.next.notEscaped
            && o.next.commentDepth == 0
  {
  }

  /** Inside a quoted literal a doubled quote contributes exactly one `'` to
      the label and leaves the literal open. */
  lemma DoubledQuote(st: State, convert: bool)
    requires !st.notEscaped && st.commentDepth == 0 && !AfterQuote(st)
    ensures var r := RunFrom(st, "''", convert);
            && !r.failed && r.tokens == []
            && r.final.buffer == st.buffer + "'"
            && !r.final.notEscaped && r.final.commentDepth == 0
            && !AfterQuote(r.final)
  {
    var o1 := StepChar(st, '\'', convert);
    assert o1.next.notEscaped && AfterQuote(o1.next) && o1.next.buffer == st.buffer;
    var o2 := StepChar(o1.next, '\'', convert);
    assert o2.next.buffer == st.buffer + "'";
    assert "''"[1..] == "'";
  }

  /** Unquoted whitespace after a label has started, followed by another label
      character, raises NewickFormatError. */
  lemma WhitespaceInLabelFails(st: State, ws: char, c: char, convert: bool)
    requires st.notEscaped && st.commentDepth == 0 && st.labelStart
    requires IsSpace(ws) && PlainLabelChar(c)
    ensures RunFrom(st, [ws, c], convert).failed
    ensures RunFrom(st, [ws, c], convert).tokens == []
  {
    var o1 := StepChar(st, ws, convert);
    assert o1.next.labelStart && LastCharIsSpace(o1.next) && o1.next.notEscaped;
    assert [ws, c][1..] == [c];
  }

  /** Inside a comment no token is yielded and nothing but the comment depth
      and the last non-whitespace character changes; the depth rises on `[`
      and falls on `]` unless the previous non-whitespace character was a
      quote. */
  lemma CommentStep(st: State, c: char, convert: bool)
    requires st.commentDepth > 0
    ensures var o := StepChar(st, c, convert);
            && !o.failed && o.emitted == []
            && o.next == st.(commentDepth := o.next.commentDepth, lastNonWs := Some(c))
            && o.next.commentDepth == if AfterQuote(st) then st.commentDepth
                                      else if c == '[' && st.notEscaped then st.commentDepth + 1
                                      else if c == ']' then st.commentDepth - 1
                                      else st.commentDepth
  {
  }

  lemma {:induction false} CommentBody(st: State, body: string, convert: bool)
    requires st.commentDepth == 1
    requires forall k :: 0 <= k < |body| ==> body[k] != '[' && body[k] != ']'
    decreases |body|
    ensures var r := RunFrom(st, body, convert);
            && r.tokens == [] && !r.failed
            && r.final == st.(lastNonWs := if body == [] then st.lastNonWs else Some(body[|body| - 1]))
  {
    if body != [] {
      CommentBody(StepChar(st, body[0], convert).next, body[1..], convert);
    }
  }

  /** A bracketed comment outside quotes yields no token: reading it changes
      only the last non-whitespace character. */
  lemma CommentIsInvisible(st: State, body: string, convert: bool)
    requires st.notEscaped && st.commentDepth == 0
    requires forall k :: 0 <= k < |body| ==> body[k] != '[' && body[k] != ']'
    requires body != [] ==> body[|body| - 1] != '\''
    ensures RunFrom(st, "[" + body + "]", convert) == Run([], false, st.(lastNonWs := Some(']')))
  {
    var open := StepChar(st, '[', convert).next;
    assert open == st.(commentDepth := 1, lastNonWs := Some('['));
    RunAppend(st, "[", body + "]", convert);
    assert "[" + body + "]" == "[" + (body + "]");
    RunAppend(open, body, "]", convert);
    CommentBody(open, body, convert);
  }
}
