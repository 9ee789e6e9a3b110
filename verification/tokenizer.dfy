/** The quote-aware tokenizer `parse_command` (scripts/utils/src/lib.rs):
    one left-to-right pass over the characters of a stage, with the finished
    tokens, the current word and an "inside quotes" flag as its state. */
module Tokenizer {
  import opened Strings
  import opened Splitting

  /** Both quote characters toggle the same flag. */
  predicate IsQuote(c: char)
  {
    c == '\'' || c == '"'
  }

  predicate QuoteFree(w: string)
  {
    forall j :: 0 <= j < |w| ==> !IsQuote(w[j])
  }

  /** The tokenizer's state between two characters. */
  datatype ScanState = ScanState(tokens: seq<string>, word: string, insideQuotes: bool)

  const Start := ScanState([], [], false)

  /** One iteration of the `while let` loop. */
  function Step(st: ScanState, c: char): ScanState
  {
    if c == ' ' then
      if st.insideQuotes then st.(word := st.word + [c])
      else if st.word != [] then st.(tokens := st.tokens + [st.word], word := [])
      else st
    else if IsQuote(c) then st.(insideQuotes := !st.insideQuotes)
    else st.(word := st.word + [c])
  }

  /** Number of quote characters of either kind in `s`. */
  function QuoteCount(s: string): nat
  {
    multiset(s)['\''] + multiset(s)['"']
  }

  /** After reading `s`, a quoted span is open: an odd number of quotes. */
  predicate OpenQuoteAfter(s: string)
  {
    QuoteCount(s) % 2 == 1
  }

  /** Whether the character following `before` reaches some token: quote
      characters never do, and a space does only inside a quoted span. */
  predicate KeptAfter(before: string, c: char)
  {
    !IsQuote(c) && (c != ' ' || OpenQuoteAfter(before))
  }

  /** The characters of `s` that end up in some token, in order. */
  function Visible(s: string): string
  {
    if s == [] then []
    else
      var before, c := s[..|s| - 1], s[|s| - 1];
      Visible(before) + (if KeptAfter(before, c) then [c] else [])
  }

  /** What `parse_command` may push: a non-empty word without quotes. */
  predicate Token(w: string)
  {
    w != [] && QuoteFree(w)
  }

  /** Finished tokens are tokens and the pending word holds no quote. */
  predicate Clean(st: ScanState)
  {
    && (forall i :: 0 <= i < |st.tokens| ==> Token(st.tokens[i]))
    && QuoteFree(st.word)
  }

  /** What the scan state says about the input read so far. */
  predicate Describes(st: ScanState, s: string)
  {
    && Clean(st)
    && st.insideQuotes == OpenQuoteAfter(s)
    && Concat(st.tokens) + st.word == Visible(s)
  }

  lemma StepKeepsClean(st: ScanState, c: char)
    requires Clean(st)
    ensures Clean(Step(st, c))
  {
    if c == ' ' && !st.insideQuotes && st.word != [] {
      var ts := st.tokens + [st.word];
      assert forall i :: 0 <= i < |st.tokens| ==> ts[i] == st.tokens[i];
      assert ts[|st.tokens|] == st.word;
    } else if !IsQuote(c) {
      var w := st.word + [c];
      assert forall j :: 0 <= j < |st.word| ==> w[j] == st.word[j];
    }
  }

  lemma StepKeepsParity(before: string, c: char)
    ensures OpenQuoteAfter(before + [c]) == (if IsQuote(c) then !OpenQuoteAfter(before) else OpenQuoteAfter(before))
  {
    assert multiset(before + [c]) == multiset(before) + multiset{c};
  }

  lemma VisibleSnoc(before: string, c: char)
    ensures Visible(before + [c]) == Visible(before) + (if KeptAfter(before, c) then [c] else [])
  {
    var s := before + [c];
    assert s[..|s| - 1] == before;
  }

  /** One step appends `c` to the text of the tokens and word exactly when
      the character is kept. */
  lemma StepKeepsText(st: ScanState, c: char)
    ensures Concat(Step(st, c).tokens) + Step(st, c).word ==
      Concat(st.tokens) + st.word + (if !IsQuote(c) && (c != ' ' || st.insideQuotes) then [c] else [])
  {
    if c == ' ' && !st.insideQuotes && st.word != [] {
      ConcatSnoc(st.tokens, st.word);
    } else if !IsQuote(c) && (c != ' ' || st.insideQuotes) {
      assert Step(st, c) == st.(word := st.word + [c]);
    } else {
      assert Step(st, c).tokens == st.tokens && Step(st, c).word == st.word;
    }
  }

  /** Reading one more character keeps the description true. */
  lemma StepDescribes(st: ScanState, before: string, c: char)
    requires Describes(st, before)
    ensures Describes(Step(st, c), before + [c])
  {
    StepKeepsClean(st, c);
    StepKeepsParity(before, c);
    StepKeepsText(st, c);
    VisibleSnoc(before, c);
  }

  /** The state after reading all of `s` from the start state. */
  function Scan(s: string): ScanState
  {
    if s == [] then Start else Step(Scan(s[..|s| - 1]), s[|s| - 1])
  }

  /** The scan state describes the input read so far. */
  lemma {:induction false} ScanDescribes(s: string)
    ensures Describes(Scan(s), s)
  {
    if s != [] {
      var before, c := s[..|s| - 1], s[|s| - 1];
      ScanDescribes(before);
      StepDescribes(Scan(before), before, c);
      assert s == before + [c];
    }
  }

  /** The final `if !word.is_empty()` push after the loop. */
  function Flush(st: ScanState): seq<string>
  {
    if st.word != [] then st.tokens + [st.word] else st.tokens
  }

  /** `parse_command`. */
  function ParseCommand(cmd: string): seq<string>
  {
    Flush(Scan(cmd))
  }

  /** Every argument `parse_command` returns is non-empty and free of quote
      characters, and together they spell exactly the visible characters of
      the input: nothing is lost, not even an unterminated quoted span. */
  lemma ParseCommandTokens(cmd: string)
    ensures forall i :: 0 <= i < |ParseCommand(cmd)| ==> Token(ParseCommand(cmd)[i])
    ensures Concat(ParseCommand(cmd)) == Visible(cmd)
    ensures ParseCommand(cmd) == DropEmpty(QuotedPieces(cmd))
  {
    ParseCommandIsQuotedSplit(cmd);
    var st := Scan(cmd);
    ScanDescribes(cmd);
    if st.word != [] {
      var argv := st.tokens + [st.word];
      assert ParseCommand(cmd) == argv;
      ConcatSnoc(st.tokens, st.word);
      assert forall i :: 0 <= i < |st.tokens| ==> argv[i] == st.tokens[i];
      assert argv[|st.tokens|] == st.word;
    } else {
      assert ParseCommand(cmd) == st.tokens;
    }
  }

  /** The imperative loop of `parse_command`, computing what the fold does. */
  method ParseCommandLoop(cmd: string) returns (res: seq<string>)
    ensures res == ParseCommand(cmd)
  {
    res := [];
    var word: string := [];
    var insideQuotes := false;
    var i := 0;
    while i < |cmd|
      invariant 0 <= i <= |cmd|
      invariant ScanState(res, word, insideQuotes) == Scan(cmd[..i])
    {
      var s := cmd[i];
      assert cmd[..i + 1][..i] == cmd[..i];
      if s == ' ' {
        if !insideQuotes {
          if word != [] {
            res := res + [word];
            word := [];
          }
        } else {
          word := word + [s];
        }
      } else if s == '"' || s == '\'' {
        insideQuotes := !insideQuotes;
      } else {
        word := word + [s];
      }
      i := i + 1;
    }
    assert cmd[..i] == cmd;
    if word != [] {
      res := res + [word];
    }
  }

  /** The non-empty strings of `ws`, in order. */
  function DropEmpty(ws: seq<string>): (r: seq<string>)
  {
    if ws == [] then []
    else DropEmpty(ws[..|ws| - 1]) + (if ws[|ws| - 1] == [] then [] else [ws[|ws| - 1]])
  }

  lemma QuoteFreeFront(s: string)
    requires s != [] && QuoteFree(s)
    ensures QuoteFree(s[..|s| - 1]) && !IsQuote(s[|s| - 1])
  {
    assert forall j :: 0 <= j < |s| - 1 ==> s[..|s| - 1][j] == s[j];
  }

  /** One character's effect on the pieces of a quote-aware split, given
      whether a quoted span is open before it: a quote character is dropped,
      a space outside quotes starts a new piece, and any other character
      joins the current piece. */
  function NextPieces(pieces: seq<string>, inside: bool, c: char): (next: seq<string>)
    requires |pieces| >= 1
    ensures |next| >= 1
  {
    if IsQuote(c) then pieces else SnocPieces(pieces, c, c == ' ' && !inside)
  }

  /** The pieces of `s` between the spaces that follow an even number of
      quote characters, with the quote characters removed. Empty pieces are
      kept; `parse_command` drops them. */
  function QuotedPieces(s: string): (pieces: seq<string>)
    ensures |pieces| >= 1
  {
    if s == [] then [[]]
    else NextPieces(QuotedPieces(s[..|s| - 1]), OpenQuoteAfter(s[..|s| - 1]), s[|s| - 1])
  }

  /** The scan state that stands for the pieces of a quote-aware split:
      the non-empty pieces but the last are finished, the last is pending. */
  function QuotedState(pieces: seq<string>, inside: bool): ScanState
    requires |pieces| >= 1
  {
    ScanState(DropEmpty(pieces[..|pieces| - 1]), pieces[|pieces| - 1], inside)
  }

  lemma StepOnQuotedPieces(pieces: seq<string>, inside: bool, c: char)
    requires |pieces| >= 1
    ensures Step(QuotedState(pieces, inside), c)
      == QuotedState(NextPieces(pieces, inside, c), if IsQuote(c) then !inside else inside)
  {
    var next := NextPieces(pieces, inside, c);
    if IsQuote(c) {
    } else if c == ' ' && !inside {
      assert next[..|next| - 1] == pieces;
      assert pieces[..|pieces|] == pieces;
    } else {
      assert next[..|next| - 1] == pieces[..|pieces| - 1];
    }
  }

  /** After any input, the scan state is the quote-aware split of it read so
      far, and the flag is the parity of the quotes. */
  lemma {:induction false} ScanFollowsQuotedPieces(s: string)
    ensures Scan(s) == QuotedState(QuotedPieces(s), OpenQuoteAfter(s))
  {
    if s != [] {
      var before, c := s[..|s| - 1], s[|s| - 1];
      ScanFollowsQuotedPieces(before);
      StepOnQuotedPieces(QuotedPieces(before), OpenQuoteAfter(before), c);
      StepKeepsParity(before, c);
      assert s == before + [c];
    }
  }

  lemma FlushQuotedPieces(pieces: seq<string>, inside: bool)
    requires |pieces| >= 1
    ensures Flush(QuotedState(pieces, inside)) == DropEmpty(pieces)
  {
  }

  /** `parse_command` for every input: the non-empty pieces between the
      spaces outside quotes, without quote characters. A token breaks at such
      a space and nowhere else, so a quote in the middle of a word joins the
      text on both sides into one token. */
  lemma ParseCommandIsQuotedSplit(cmd: string)
    ensures ParseCommand(cmd) == DropEmpty(QuotedPieces(cmd))
  {
    ScanFollowsQuotedPieces(cmd);
    FlushQuotedPieces(QuotedPieces(cmd), OpenQuoteAfter(cmd));
  }

  /** Without quote characters no quoted span opens, and the quote-aware
      split is the plain split on spaces. */
  lemma {:induction false} QuotedPiecesWithoutQuotes(s: string)
    requires QuoteFree(s)
    ensures QuotedPieces(s) == Split(s, " ") && !OpenQuoteAfter(s)
  {
    if s == [] {
      assert Split(s, " ") == [[]];
    } else {
      var before, c := s[..|s| - 1], s[|s| - 1];
      QuoteFreeFront(s);
      QuotedPiecesWithoutQuotes(before);
      StepKeepsParity(before, c);
      SplitSnocChar(before, c, ' ');
      assert s == before + [c];
    }
  }

  /** On input without quote characters, `parse_command` is Rust's
      `split(' ')` with the empty pieces dropped: runs of spaces never make
      empty tokens. */
  lemma ParseWithoutQuotesIsSplit(cmd: string)
    requires QuoteFree(cmd)
    ensures ParseCommand(cmd) == DropEmpty(Split(cmd, " "))
  {
    ParseCommandIsQuotedSplit(cmd);
    QuotedPiecesWithoutQuotes(cmd);
  }

  /** A quoted span glued to a bare word extends that word: no token breaks
      at a quote. */
  lemma QuoteInsideWordJoins(a: string, q: char, b: string, r: char)
    requires Word(a) && IsQuote(q) && IsQuote(r)
    requires QuoteFree(b)
    ensures ParseCommand(a + [q] + b + [r]) == [a + b]
  {
    ScanWord([], a);
    assert [] + a == a;
    ScanSnoc(a, q);
    ScanWord(a + [q], b);
    ScanSnoc(a + [q] + b, r);
  }

  /** Two quote characters in a row open and close an empty quoted span,
      which changes nothing: wherever `''` or `""` stands, the scan reads as
      if it were absent. */
  lemma {:induction false} EmptyQuotedSpanVanishes(p: string, q: string, a: char, b: char)
    requires IsQuote(a) && IsQuote(b)
    ensures Scan(p + [a, b] + q) == Scan(p + q)
    decreases |q|
  {
    if q == [] {
      QuotePairVanishes(p, a, b);
      assert p + [a, b] + q == p + [a, b];
      assert p + q == p;
    } else {
      var front, c := q[..|q| - 1], q[|q| - 1];
      EmptyQuotedSpanVanishes(p, front, a, b);
      AppendSnoc(p + [a, b], q);
      AppendSnoc(p, q);
      ScanSnoc(p + [a, b] + front, c);
      ScanSnoc(p + front, c);
    }
  }

  /** Two quote characters at the end flip the flag there and back. */
  lemma QuotePairVanishes(p: string, a: char, b: char)
    requires IsQuote(a) && IsQuote(b)
    ensures Scan(p + [a, b]) == Scan(p)
  {
    ScanSnoc(p, a);
    ScanSnoc(p + [a], b);
    assert p + [a, b] == (p + [a]) + [b];
  }

  lemma AppendSnoc<T>(x: seq<T>, y: seq<T>)
    requires |y| >= 1
    ensures x + y == (x + y[..|y| - 1]) + [y[|y| - 1]]
  {
  }

  lemma ScanSnoc(p: string, c: char)
    ensures Scan(p + [c]) == Step(Scan(p), c)
  {
    assert (p + [c])[..|p|] == p;
  }

  /** A run of ordinary characters (and, inside quotes, spaces) only grows
      the pending word. */
  lemma {:induction false} ScanWord(p: string, w: string)
    requires QuoteFree(w)
    requires Scan(p).insideQuotes || ' ' !in w
    ensures Scan(p + w) == Scan(p).(word := Scan(p).word + w)
    decreases |w|
  {
    if w == [] {
      assert p + w == p;
    } else {
      var front, c := w[..|w| - 1], w[|w| - 1];
      assert w == front + [c];
      assert QuoteFree(front) by {
        forall j | 0 <= j < |front| ensures !IsQuote(front[j]) {
          assert front[j] == w[j];
        }
      }
      assert ' ' in w ==> c == ' ' || ' ' in front;
      ScanWord(p, front);
      assert p + w == (p + front) + [c];
      ScanSnoc(p + front, c);
      assert Scan(p).word + front + [c] == Scan(p).word + w;
    }
  }

  /** A word of ordinary characters followed by a space, read outside quotes
      with nothing pending, becomes one finished token. */
  lemma ScanToken(p: string, w: string)
    requires Scan(p).word == [] && !Scan(p).insideQuotes
    requires w != [] && QuoteFree(w) && ' ' !in w
    ensures Scan(p + w + " ") == ScanState(Scan(p).tokens + [w], [], false)
  {
    ScanWord(p, w);
    assert Scan(p).word + w == w;
    ScanSnoc(p + w, ' ');
  }

  /** A quoted span followed by a space, read outside quotes with nothing
      pending, becomes one finished token without its quotes, spaces and
      all. */
  lemma ScanQuotedToken(p: string, q: char, w: string, r: char)
    requires Scan(p).word == [] && !Scan(p).insideQuotes
    requires IsQuote(q) && IsQuote(r)
    requires w != [] && QuoteFree(w)
    ensures Scan(p + [q] + w + [r] + " ") == ScanState(Scan(p).tokens + [w], [], false)
  {
    ScanSnoc(p, q);
    ScanWord(p + [q], w);
    assert Scan(p + [q]).word + w == w;
    ScanSnoc(p + [q] + w, r);
    ScanSnoc(p + [q] + w + [r], ' ');
  }

  /** A single word of ordinary characters is one token. */
  lemma ParseSingleWord(w: string)
    requires w != [] && QuoteFree(w) && ' ' !in w
    ensures ParseCommand(w) == [w]
  {
    ScanWord("", w);
    assert "" + w == w;
  }

  /** A bare word: ordinary characters only. */
  predicate Word(w: string)
  {
    w != [] && QuoteFree(w) && ' ' !in w
  }

  /** Two bare words separated by a space are two tokens. */
  lemma ParseTwoWords(a: string, b: string)
    requires Word(a) && Word(b)
    ensures ParseCommand(a + " " + b) == [a, b]
  {
    ScanToken([], a);
    assert [] + a + " " == a + " ";
    ScanWord(a + " ", b);
    assert [] + b == b;
  }

  /** Three bare words separated by spaces are three tokens. */
  lemma ParseThreeWords(a: string, b: string, c: string)
    requires Word(a) && Word(b) && Word(c)
    ensures ParseCommand(a + " " + b + " " + c) == [a, b, c]
  {
    ScanToken([], a);
    assert [] + a + " " == a + " ";
    ScanToken(a + " ", b);
    ScanWord(a + " " + b + " ", c);
    assert [] + c == c;
  }

  /** A quoted span between two bare words is one token, spaces and all. */
  lemma ParseQuotedMiddle(a: string, q: char, b: string, r: char, c: string)
    requires Word(a) && Word(c) && IsQuote(q) && IsQuote(r)
    requires b != [] && QuoteFree(b)
    ensures ParseCommand(a + " " + [q] + b + [r] + " " + c) == [a, b, c]
  {
    ScanToken([], a);
    assert [] + a + " " == a + " ";
    ScanQuotedToken(a + " ", q, b, r);
    ScanWord(a + " " + [q] + b + [r] + " ", c);
    assert [] + c == c;
  }

  lemma ScanAfterOpenQuote(a: string, q: char, b: string)
    requires Word(a) && IsQuote(q)
    requires b != [] && QuoteFree(b)
    ensures Scan(a + " " + [q] + b) == ScanState([a], b, true)
  {
    ScanToken([], a);
    assert [] + a + " " == a + " ";
    ScanSnoc(a + " ", q);
    ScanWord(a + " " + [q], b);
    assert [] + b == b;
  }

  /** A quote left open after a bare word runs to the end of the input, and
      the partial word is still a token. */
  lemma ParseOpenQuoteLast(a: string, q: char, b: string)
    requires Word(a) && IsQuote(q)
    requires b != [] && QuoteFree(b)
    ensures ParseCommand(a + " " + [q] + b) == [a, b]
  {
    ScanAfterOpenQuote(a, q, b);
  }

  /** A quoted span after a bare word is one token. */
  lemma ParseQuotedLast(a: string, q: char, b: string, r: char)
    requires Word(a) && IsQuote(q) && IsQuote(r)
    requires b != [] && QuoteFree(b)
    ensures ParseCommand(a + " " + [q] + b + [r]) == [a, b]
  {
    ScanAfterOpenQuote(a, q, b);
    ScanSnoc(a + " " + [q] + b, r);
  }

  lemma ParseWithoutQuotesExample()
    ensures ParseCommand("ls -l -a") == ["ls", "-l", "-a"]
  {
    ParseThreeWords("ls", "-l", "-a");
    assert "ls" + " " + "-l" + " " + "-a" == "ls -l -a";
  }

  lemma ParseSingleQuotedExample()
    ensures ParseCommand("grep 'search term' file.txt") == ["grep", "search term", "file.txt"]
  {
    ParseQuotedMiddle("grep", '\'', "search term", '\'', "file.txt");
    assert "grep" + " " + ['\''] + "search term" + ['\''] + " " + "file.txt" == "grep 'search term' file.txt";
  }

  lemma ParseDoubleQuotedExample()
    ensures ParseCommand("grep \"search term\" file.txt") == ["grep", "search term", "file.txt"]
  {
    ParseQuotedMiddle("grep", '"', "search term", '"', "file.txt");
    assert "grep" + " " + ['"'] + "search term" + ['"'] + " " + "file.txt" == "grep \"search term\" file.txt";
  }

  /** The unit tests of lib.rs, plus the empty command. */
  lemma ParseCommandExamples()
    ensures ParseCommand("") == []
    ensures ParseCommand("ls -l -a") == ["ls", "-l", "-a"]
    ensures ParseCommand("grep 'search term' file.txt") == ["grep", "search term", "file.txt"]
    ensures ParseCommand("grep \"search term\" file.txt") == ["grep", "search term", "file.txt"]
  {
    ParseWithoutQuotesExample();
    ParseSingleQuotedExample();
    ParseDoubleQuotedExample();
  }

  /** The commands of the `execute` tests of lib.rs: the quotes around
      `hello` disappear. */
  lemma ParseEchoExamples()
    ensures ParseCommand("echo hello") == ["echo", "hello"]
    ensures ParseCommand("echo 'hello'") == ["echo", "hello"]
    ensures ParseCommand("echo \"hello\"") == ["echo", "hello"]
  {
    ParseTwoWords("echo", "hello");
    assert "echo" + " " + "hello" == "echo hello";
    ParseQuotedLast("echo", '\'', "hello", '\'');
    assert "echo" + " " + ['\''] + "hello" + ['\''] == "echo 'hello'";
    ParseQuotedLast("echo", '"', "hello", '"');
    assert "echo" + " " + ['"'] + "hello" + ['"'] == "echo \"hello\"";
  }

  /** An unbalanced quote is not an error: once a quoted span is open, a
      rest without quote characters, spaces and all, joins the pending word,
      which is still returned as the last token. */
  lemma UnbalancedQuoteIsFlushed(p: string, w: string)
    requires Scan(p).insideQuotes && QuoteFree(w)
    requires Scan(p).word + w != []
    ensures ParseCommand(p + w) == Scan(p).tokens + [Scan(p).word + w]
  {
    ScanWord(p, w);
  }

  lemma UnbalancedQuoteExample()
    ensures ParseCommand("echo 'hello world") == ["echo", "hello world"]
  {
    ParseOpenQuoteLast("echo", '\'', "hello world");
    assert "echo" + " " + ['\''] + "hello world" == "echo 'hello world";
  }
}
