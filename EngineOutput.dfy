/**
 * The engine-output reader `get_eval`: the engine's standard output is a
 * finite sequence of read results, each line is classified by a pure parser,
 * and `GetEval` runs `get_eval`'s read loop over them with a mutable running
 * evaluation.
 */
module EngineOutput {
  import opened Wrappers
  import opened Int32
  import opened Text

  /** The panics of the token scan: an `unwrap` on a missing token, a failed `parse`, `unreachable!`. */
  datatype ParseError =
    | MissingKind                   // nothing after `score`
    | UnknownKind(kind: string)     // neither `mate` nor `cp` after `score`
    | MissingCentipawns             // nothing after `cp`
    | BadCentipawns(token: string)  // the token after `cp` is not an `i32` literal

  /** What one line of engine output does to the read loop. */
  datatype LineResult =
    | Terminate                     // a `bestmove` line: stop reading
    | NoScore                       // no `score` token: the running value stays
    | Score(value: int)             // the running value becomes `value`
    | Fatal(error: ParseError)      // the program panics

  /** One call of `read_line`: a line, with its newline if it had one, or a read error. */
  datatype ReadItem = Line(text: string) | ReadFailure

  /** What a whole call of `get_eval` comes to. */
  datatype Outcome =
    | Evaluated(value: int)         // the loop stopped and this value is returned
    | Panicked(error: ParseError)   // a panic while scanning a line
    | Unterminated(last: int)       // the output ended without `bestmove`: `get_eval` spins forever

  const Bestmove: string := "bestmove"
  const ScoreTag: string := "score"

  /** The evaluation read from the tokens that follow the first `score` token. */
  function ScoreOf(rest: seq<string>): (r: LineResult)
    ensures r.Score? || r.Fatal?
    ensures r.Score? ==> InRange(r.value)
  {
    if |rest| == 0 then Fatal(MissingKind)
    else if rest[0] == "mate" then Score(MAX)
    else if rest[0] == "cp" then
      if |rest| == 1 then Fatal(MissingCentipawns)
      else match ParseI32(rest[1])
        case None => Fatal(BadCentipawns(rest[1]))
        case Some(v) => Score(v)
    else Fatal(UnknownKind(rest[0]))
  }

  /** The scan for the first `score` token of a line. */
  function ScanTokens(tokens: seq<string>): (r: LineResult)
    ensures r != Terminate
    ensures r.Score? ==> InRange(r.value)
    decreases |tokens|
  {
    if tokens == [] then NoScore
    else if tokens[0] == ScoreTag then ScoreOf(tokens[1..])
    else ScanTokens(tokens[1..])
  }

  /** One line of engine output, classified. */
  function ParseLine(line: string): (r: LineResult)
    ensures r == Terminate <==> StartsWith(line, Bestmove)
    ensures r.Score? ==> InRange(r.value)
  {
    if StartsWith(line, Bestmove) then Terminate else ScanTokens(Split(line, ' '))
  }

  /** Whether the read loop stops at this item without a panic. */
  predicate Stops(item: ReadItem) {
    item.ReadFailure? || ParseLine(item.text) == Terminate
  }

  /** Whether the read loop goes on past this item. */
  predicate Continues(item: ReadItem) {
    item.Line? && (ParseLine(item.text).NoScore? || ParseLine(item.text).Score?)
  }

  /** Whether this item is a line carrying a score. */
  predicate IsScoreLine(item: ReadItem) {
    item.Line? && ParseLine(item.text).Score?
  }

  /** The read loop as a function of the remaining output and the running value. */
  function Read(stream: seq<ReadItem>, current: int): (o: Outcome)
    ensures InRange(current) && o.Evaluated? ==> InRange(o.value)
    ensures InRange(current) && o.Unterminated? ==> InRange(o.last)
    decreases |stream|
  {
    if stream == [] then Unterminated(current)
    else match stream[0]
      case ReadFailure => Evaluated(current)
      case Line(text) =>
        match ParseLine(text)
        case Terminate => Evaluated(current)
        case NoScore => Read(stream[1..], current)
        case Score(v) => Read(stream[1..], v)
        case Fatal(e) => Panicked(e)
  }

  /**
   * `get_eval`'s read loop: the running value starts at 0, each line either
   * ends the loop, leaves the value, overwrites it with the first score it
   * carries, or panics.
   */
  method GetEval(stream: seq<ReadItem>) returns (o: Outcome)
    ensures o == Read(stream, 0)
    ensures o.Evaluated? ==> InRange(o.value)
  {
    var current := 0;
    var i := 0;
    while i < |stream|
      invariant 0 <= i <= |stream|
      invariant InRange(current)
      invariant Read(stream, 0) == Read(stream[i..], current)
    {
      assert stream[i..][0] == stream[i] && stream[i..][1..] == stream[i + 1..];
      if stream[i].ReadFailure? {
        return Evaluated(current);
      }
      var line := stream[i].text;
      if StartsWith(line, Bestmove) {
        return Evaluated(current);
      }
      var split := Split(line, ' ');
      ghost var found := false;
      var j := 0;
      while j < |split|
        invariant 0 <= j <= |split|
        invariant ScanTokens(split) == ScanTokens(split[j..])
      {
        assert split[j..][0] == split[j] && split[j..][1..] == split[j + 1..];
        if split[j] != ScoreTag {
          j := j + 1;
          continue;
        }
        if j + 1 == |split| {
          return Panicked(MissingKind);
        }
        var kind := split[j + 1];
        if kind == "mate" {
          current := MAX;
        } else if kind == "cp" {
          if j + 2 == |split| {
            return Panicked(MissingCentipawns);
          }
          var parsed := ParseI32(split[j + 2]);
          if parsed.None? {
            return Panicked(BadCentipawns(split[j + 2]));
          }
          current := parsed.value;
        } else {
          return Panicked(UnknownKind(kind));
        }
        found := true;
        assert ScanTokens(split) == Score(current);
        break;
      }
      assert ParseLine(line) == if found then Score(current) else NoScore;
      i := i + 1;
    }
    return Unterminated(current);
  }

  // ---- The line parser ----

  /** A line that starts with `bestmove` ends reading, whatever else it holds. */
  lemma BestmoveLine(rest: string)
    ensures ParseLine(Bestmove + rest) == Terminate
  {
    assert (Bestmove + rest)[..|Bestmove|] == Bestmove;
  }

  /** The scan finds nothing exactly when no token is `score`. */
  lemma {:induction false} ScanNoScore(tokens: seq<string>)
    ensures ScanTokens(tokens) == NoScore <==> ScoreTag !in tokens
    decreases |tokens|
  {
    if tokens != [] {
      ScanNoScore(tokens[1..]);
      assert tokens == [tokens[0]] + tokens[1..];
    }
  }

  /** Only the first `score` token counts: what follows a later one is never read. */
  lemma {:induction false} ScanFirstScore(before: seq<string>, after: seq<string>)
    requires ScoreTag !in before
    ensures ScanTokens(before + [ScoreTag] + after) == ScoreOf(after)
    decreases |before|
  {
    var tokens := before + [ScoreTag] + after;
    if before == [] {
      assert tokens[1..] == after;
    } else {
      assert tokens[1..] == before[1..] + [ScoreTag] + after;
      ScanFirstScore(before[1..], after);
    }
  }

  /** A line without a token exactly equal to `score` leaves the evaluation alone, and conversely. */
  lemma LineNoScore(line: string)
    ensures ParseLine(line) == NoScore <==>
              !StartsWith(line, Bestmove) && ScoreTag !in Split(line, ' ')
  {
    ScanNoScore(Split(line, ' '));
  }

  /** No token of the sequence holds a space, so joining with spaces and splitting again gives the tokens back. */
  predicate Spaceless(tokens: seq<string>) {
    forall k :: 0 <= k < |tokens| ==> ' ' !in tokens[k]
  }

  /** Spacelessness of a concatenation is that of its parts. */
  lemma SpacelessConcat(a: seq<string>, b: seq<string>)
    ensures Spaceless(a + b) <==> Spaceless(a) && Spaceless(b)
  {
    if Spaceless(a) && Spaceless(b) {
      forall k | 0 <= k < |a + b| ensures ' ' !in (a + b)[k] {
        if k >= |a| { assert (a + b)[k] == b[k - |a|]; }
      }
    }
    if Spaceless(a + b) {
      forall k | 0 <= k < |b| ensures ' ' !in b[k] {
        assert (a + b)[|a| + k] == b[k];
      }
      forall k | 0 <= k < |a| ensures ' ' !in a[k] {
        assert (a + b)[k] == a[k];
      }
    }
  }

  /**
   * In a line made of space-separated tokens, the first `score` token
   * decides: the tokens after it are read as they are, later `score` tokens
   * included.
   */
  lemma LineFirstScore(before: seq<string>, after: seq<string>)
    requires Spaceless(before + [ScoreTag] + after)
    requires ScoreTag !in before
    requires !StartsWith(Join(before + [ScoreTag] + after, ' '), Bestmove)
    ensures ParseLine(Join(before + [ScoreTag] + after, ' ')) == ScoreOf(after)
  {
    SplitJoin(before + [ScoreTag] + after, ' ');
    ScanFirstScore(before, after);
  }

  /** `LineFirstScore` for tokens given as the parts before and after `score`. */
  lemma LineAfterScore(before: seq<string>, rest: seq<string>)
    requires Spaceless(before) && Spaceless(rest)
    requires ScoreTag !in before
    requires !StartsWith(Join(before + [ScoreTag] + rest, ' '), Bestmove)
    ensures ParseLine(Join(before + [ScoreTag] + rest, ' ')) == ScoreOf(rest)
  {
    SpacelessConcat(before, [ScoreTag] + rest);
    SpacelessConcat([ScoreTag], rest);
    assert before + [ScoreTag] + rest == before + ([ScoreTag] + rest);
    LineFirstScore(before, rest);
  }

  /** The decimal form of a number holds no space. */
  lemma FormatSpaceless(n: int)
    ensures ' ' !in FormatI32(n)
  {
    var s := FormatI32(n);
    if n < 0 { assert s[0] == '-' && AllDigits(s[1..]); }
  }

  /** The tokens `cp N` after `score` give the score `N` when it is an `i32`, and are fatal otherwise. */
  lemma CentipawnTokens(n: int, after: seq<string>)
    ensures ScoreOf(["cp", FormatI32(n)] + after)
              == if InRange(n) then Score(n) else Fatal(BadCentipawns(FormatI32(n)))
  {
    ParseFormat(n);
    assert (["cp", FormatI32(n)] + after)[1] == FormatI32(n);
  }

  /**
   * `score cp N` sets the evaluation to the decimal value `N`; a value outside
   * the `i32` range is a fatal parse error.
   */
  lemma CentipawnLine(before: seq<string>, n: int, after: seq<string>)
    requires Spaceless(before) && Spaceless(after)
    requires ScoreTag !in before
    requires !StartsWith(Join(before + [ScoreTag, "cp", FormatI32(n)] + after, ' '), Bestmove)
    ensures ParseLine(Join(before + [ScoreTag, "cp", FormatI32(n)] + after, ' '))
              == if InRange(n) then Score(n) else Fatal(BadCentipawns(FormatI32(n)))
  {
    var rest := ["cp", FormatI32(n)] + after;
    FormatSpaceless(n);
    SpacelessConcat(["cp", FormatI32(n)], after);
    assert before + [ScoreTag, "cp", FormatI32(n)] + after == before + [ScoreTag] + rest;
    LineAfterScore(before, rest);
    CentipawnTokens(n, after);
  }

  /** `score mate K` sets the evaluation to `i32::MAX` whatever follows, so also for a negative `K`. */
  lemma MateLine(before: seq<string>, after: seq<string>)
    requires Spaceless(before) && Spaceless(after)
    requires ScoreTag !in before
    requires !StartsWith(Join(before + [ScoreTag, "mate"] + after, ' '), Bestmove)
    ensures ParseLine(Join(before + [ScoreTag, "mate"] + after, ' ')) == Score(MAX)
  {
    var rest := ["mate"] + after;
    SpacelessConcat(["mate"], after);
    assert before + [ScoreTag, "mate"] + after == before + [ScoreTag] + rest;
    LineAfterScore(before, rest);
  }

  /** A centipawn count that ends the line keeps the reader's newline, and the line is fatal. */
  lemma CentipawnNewlineFatal(before: seq<string>, digits: string)
    requires Spaceless(before) && ' ' !in digits
    requires ScoreTag !in before
    requires !StartsWith(Join(before + [ScoreTag, "cp", digits + "\n"], ' '), Bestmove)
    ensures ParseLine(Join(before + [ScoreTag, "cp", digits + "\n"], ' '))
              == Fatal(BadCentipawns(digits + "\n"))
  {
    var rest := ["cp", digits + "\n"];
    assert before + [ScoreTag, "cp", digits + "\n"] == before + [ScoreTag] + rest;
    assert Spaceless(rest) by {
      assert forall m :: 0 <= m < |digits| ==> (digits + "\n")[m] == digits[m];
    }
    LineAfterScore(before, rest);
    ParseRejectsNewline(digits);
  }

  /** A kind other than `mate` or `cp` after `score` is fatal; a bare `score` at the end is too. */
  lemma KindFatalCases(kind: string, rest: seq<string>)
    ensures ScoreOf([]) == Fatal(MissingKind)
    ensures kind != "mate" && kind != "cp" ==> ScoreOf([kind] + rest) == Fatal(UnknownKind(kind))
  {
  }

  /** A `cp` with nothing after it, or with a token that does not parse as an `i32`, is fatal. */
  lemma CentipawnFatalCases(token: string, rest: seq<string>)
    ensures ScoreOf(["cp"]) == Fatal(MissingCentipawns)
    ensures ParseI32(token) == None ==> ScoreOf(["cp", token] + rest) == Fatal(BadCentipawns(token))
  {
    assert (["cp", token] + rest)[1] == token;
  }

  // ---- The read loop ----

  /** Lines without a score before the point where reading stops leave the start value. */
  lemma {:induction false} ReadNoScores(stream: seq<ReadItem>, t: nat, c: int)
    requires t <= |stream|
    requires forall k :: 0 <= k < t ==> stream[k].Line? && ParseLine(stream[k].text) == NoScore
    requires t < |stream| ==> Stops(stream[t])
    ensures Read(stream, c) == if t < |stream| then Evaluated(c) else Unterminated(c)
    decreases t
  {
    if t > 0 {
      ReadNoScores(stream[1..], t - 1, c);
    }
  }

  /**
   * The value returned is that of the last score line before the first line
   * where reading stops.
   */
  lemma {:induction false} LastScoreWins(stream: seq<ReadItem>, t: nat, j: nat, c: int)
    requires j < t <= |stream|
    requires forall k :: 0 <= k < t ==> Continues(stream[k])
    requires t < |stream| ==> Stops(stream[t])
    requires IsScoreLine(stream[j])
    requires forall k :: j < k < t ==> !IsScoreLine(stream[k])
    ensures var v := ParseLine(stream[j].text).value;
      Read(stream, c) == if t < |stream| then Evaluated(v) else Unterminated(v)
    decreases j
  {
    var next := if IsScoreLine(stream[0]) then ParseLine(stream[0].text).value else c;
    assert Read(stream, c) == Read(stream[1..], next);
    if j == 0 {
      ReadNoScores(stream[1..], t - 1, next);
    } else {
      LastScoreWins(stream[1..], t - 1, j - 1, next);
    }
  }

  /** A fatal line reached before reading stops is a panic, never a silent default. */
  lemma {:induction false} FatalLinePanics(stream: seq<ReadItem>, j: nat, c: int)
    requires j < |stream|
    requires forall k :: 0 <= k < j ==> Continues(stream[k])
    requires stream[j].Line? && ParseLine(stream[j].text).Fatal?
    ensures Read(stream, c) == Panicked(ParseLine(stream[j].text).error)
    decreases j
  {
    if j > 0 {
      var next := if IsScoreLine(stream[0]) then ParseLine(stream[0].text).value else c;
      assert Read(stream, c) == Read(stream[1..], next);
      FatalLinePanics(stream[1..], j - 1, next);
    }
  }

  /** Nothing after a line where reading stops is ever looked at. */
  lemma {:induction false} ReadIgnoresAfterStop(before: seq<ReadItem>, stop: ReadItem,
                                                 after1: seq<ReadItem>, after2: seq<ReadItem>, c: int)
    requires Stops(stop)
    ensures Read(before + [stop] + after1, c) == Read(before + [stop] + after2, c)
    decreases |before|
  {
    var s1, s2 := before + [stop] + after1, before + [stop] + after2;
    if before == [] {
      assert s1[0] == stop && s2[0] == stop;
    } else {
      assert s1[0] == before[0] && s2[0] == before[0];
      assert s1[1..] == before[1..] + [stop] + after1;
      assert s2[1..] == before[1..] + [stop] + after2;
      var next := if IsScoreLine(before[0]) then ParseLine(before[0].text).value else c;
      ReadIgnoresAfterStop(before[1..], stop, after1, after2, next);
    }
  }

  /** A `bestmove` line first in the output returns the value held before it, even if it carries a score. */
  lemma BestmoveKeepsValue(rest: string, after: seq<ReadItem>, c: int)
    ensures Read([Line(Bestmove + rest)] + after, c) == Evaluated(c)
  {
    BestmoveLine(rest);
    assert ([Line(Bestmove + rest)] + after)[0] == Line(Bestmove + rest);
  }
}
