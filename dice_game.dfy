/**
  dice_game/src/main.rs: the guessing loop of `main`. The random target
  (`gen_range(1..6)`, so 1 to 5) and the lines typed on standard input are
  parameters; what the program prints is returned as a list of lines.
*/
module DiceGame {
  import opened Wrappers
  import opened Text

  const Banner := "Begin! Player 1, roll your dice!"
  const Prompt := "Press enter to roll"
  const TooSmall := "Too small!"
  const TooBig := "Too big!"
  const Win := "You win!"

  /** The echo of a parsed guess. */
  function Echo(n: nat): string
  {
    "You rolled a: " + NatToString(n)
  }

  /** `dice_roll.trim().parse::<u32>()` for one line as `read_line` returned it. */
  function Guess(line: string): Option<nat>
  {
    ParseU32(Trim(line))
  }

  /** What `dice_roll.cmp(&dice_faces)` makes the loop print. */
  function Verdict(guess: nat, target: nat): (v: string)
    ensures guess < target ==> v == TooSmall
    ensures guess > target ==> v == TooBig
    ensures guess == target ==> v == Win
  {
    if guess < target then TooSmall else if guess > target then TooBig else Win
  }

  /**
    The lines one pass of the loop body prints for one input line: the
    prompt, then, if the line parses, the echo and the verdict.
  */
  function Round(target: nat, line: string): (out: seq<string>)
    ensures 1 <= |out| && out[0] == Prompt
    ensures Guess(line).None? <==> |out| == 1
    ensures Guess(line).Some? ==>
      |out| == 3 && out[1] == Echo(Guess(line).value) && out[2] == Verdict(Guess(line).value, target)
  {
    match Guess(line)
    case None => [Prompt]
    case Some(n) => [Prompt, Echo(n), Verdict(n, target)]
  }

  /** The output of the loop after it has consumed `lines`, in order. */
  function Transcript(target: nat, lines: seq<string>): seq<string>
  {
    if lines == [] then [] else Transcript(target, lines[..|lines| - 1]) + Round(target, lines[|lines| - 1])
  }

  predicate Wins(target: nat, line: string)
  {
    Guess(line) == Some(target)
  }

  /**
    One pass of the loop body after the prompt has been printed and `line`
    read: skip an unparsable line, otherwise echo the guess and print the
    verdict; `stop` is the `break` on an equal guess.
  */
  method PlayRound(target: nat, line: string) returns (out: seq<string>, stop: bool)
    ensures [Prompt] + out == Round(target, line)
    ensures stop <==> Wins(target, line)
  {
    out := [];
    stop := false;
    match Guess(line) {
      case None =>
      case Some(n) =>
        out := out + [Echo(n)];
        if n < target {
          out := out + [TooSmall];
        } else if n > target {
          out := out + [TooBig];
        } else {
          out := out + [Win];
          stop := true;
        }
    }
  }

  /** For each input line, whether it guesses the target. */
  function WinFlags(target: nat, input: seq<string>): seq<bool>
  {
    seq(|input|, i requires 0 <= i < |input| => Wins(target, input[i]))
  }

  /** Index of the first `true` in `flags` at `from` or later. */
  function FirstTrue(flags: seq<bool>, from: nat): Option<nat>
    decreases |flags| - from
  {
    if from >= |flags| then None
    else if flags[from] then Some(from)
    else FirstTrue(flags, from + 1)
  }

  lemma {:induction false} FirstTrueFound(flags: seq<bool>, from: nat)
    requires FirstTrue(flags, from).Some?
    ensures var k := FirstTrue(flags, from).value;
      from <= k < |flags| && flags[k] && forall i :: from <= i < k ==> !flags[i]
    decreases |flags| - from
  {
    if !flags[from] {
      FirstTrueFound(flags, from + 1);
    }
  }

  /** Conversely, the first `true` from `from` on is what `FirstTrue` finds. */
  lemma {:induction false} FirstTrueIs(flags: seq<bool>, from: nat, k: nat)
    requires from <= k < |flags| && flags[k] && forall i :: from <= i < k ==> !flags[i]
    ensures FirstTrue(flags, from) == Some(k)
    decreases k - from
  {
    if from < k {
      FirstTrueIs(flags, from + 1, k);
    }
  }

  lemma {:induction false} FirstTrueNone(flags: seq<bool>, from: nat)
    requires FirstTrue(flags, from).None?
    ensures forall i :: from <= i < |flags| ==> !flags[i]
    decreases |flags| - from
  {
    if from < |flags| {
      FirstTrueNone(flags, from + 1);
    }
  }

  /** Index of the first line, at `from` or later, that guesses the target. */
  function FirstWinFrom(target: nat, input: seq<string>, from: nat): Option<nat>
  {
    FirstTrue(WinFlags(target, input), from)
  }

  /** A line `FirstWinFrom` finds is a winning line, and no line before it from `from` on wins. */
  lemma FirstWinFromFound(target: nat, input: seq<string>, from: nat)
    requires FirstWinFrom(target, input, from).Some?
    ensures var k := FirstWinFrom(target, input, from).value;
      from <= k < |input| && Wins(target, input[k]) && forall i :: from <= i < k ==> !Wins(target, input[i])
  {
    var flags := WinFlags(target, input);
    FirstTrueFound(flags, from);
    var k := FirstTrue(flags, from).value;
    forall i | from <= i < k ensures !Wins(target, input[i]) {
      assert !flags[i];
    }
    assert flags[k];
  }

  /** `FirstWinFrom` finds nothing only when no line from `from` on wins. */
  lemma FirstWinFromNone(target: nat, input: seq<string>, from: nat)
    requires FirstWinFrom(target, input, from).None?
    ensures forall i :: from <= i < |input| ==> !Wins(target, input[i])
  {
    var flags := WinFlags(target, input);
    FirstTrueNone(flags, from);
    forall i | from <= i < |input| ensures !Wins(target, input[i]) {
      assert !flags[i];
    }
  }

  /**
    The loop of `main`: prompt, read a line, skip it when it does not parse,
    otherwise echo it and compare it with the target, stopping at the first
    equal guess. `consumed` is how many input lines were read: up to and
    including the first winning line, or all of them when none wins.
  */
  method Play(target: nat, input: seq<string>) returns (output: seq<string>, consumed: nat, won: bool)
    requires 1 <= target <= 5
    ensures won <==> FirstWinFrom(target, input, 0).Some?
    ensures won ==> consumed == FirstWinFrom(target, input, 0).value + 1
    ensures !won ==> consumed == |input|
    ensures consumed <= |input|
    ensures output == [Banner] + Transcript(target, input[..consumed])
    ensures won ==> output[|output| - 1] == Win && multiset(output)[Win] == 1
    ensures !won ==> Win !in output
  {
    output := [Banner];
    consumed := 0;
    won := false;
    while !won && consumed < |input|
      invariant consumed <= |input|
      invariant output == [Banner] + Transcript(target, input[..consumed])
      invariant !won ==> FirstWinFrom(target, input, 0) == FirstWinFrom(target, input, consumed)
      invariant won ==> 0 < consumed && FirstWinFrom(target, input, 0) == Some(consumed - 1)
    {
      var out;
      out, won := PlayRound(target, input[consumed]);
      PlayStep(target, input, consumed, won);
      OutputStep(target, input, consumed, output, out);
      output := output + [Prompt] + out;
      consumed := consumed + 1;
    }
    PlayAnnouncement(target, input, consumed, won);
  }

  /**
    Where the loop stops decides what the output says: after the first
    winning line it ends with the only "You win!", and when no line wins it
    never says it.
  */
  lemma PlayAnnouncement(target: nat, input: seq<string>, consumed: nat, won: bool)
    requires consumed <= |input|
    requires won ==> 0 < consumed && FirstWinFrom(target, input, 0) == Some(consumed - 1)
    requires !won ==> FirstWinFrom(target, input, 0).None? && consumed == |input|
    ensures var out := [Banner] + Transcript(target, input[..consumed]);
      (won ==> out[|out| - 1] == Win && multiset(out)[Win] == 1) && (!won ==> Win !in out)
  {
    var lines := input[..consumed];
    if won {
      FirstWinOfPrefix(target, input, consumed - 1);
      WinAnnouncedOnceAtEnd(target, lines);
    } else {
      FirstWinFromNone(target, input, 0);
      assert lines == input;
      NoWinWithoutWinningLine(target, lines);
      assert Banner[0] != Win[0];
    }
  }

  /** The first winning line of the input is also the first, and last, winning line of the input read up to it. */
  lemma FirstWinOfPrefix(target: nat, input: seq<string>, k: nat)
    requires FirstWinFrom(target, input, 0) == Some(k)
    ensures k < |input| && FirstWinFrom(target, input[..k + 1], 0) == Some(k)
  {
    FirstWinFromFound(target, input, 0);
    var lines := input[..k + 1];
    var flags := WinFlags(target, lines);
    forall i | 0 <= i < k ensures !flags[i] {
      assert lines[i] == input[i];
    }
    assert flags[k] by {
      assert lines[k] == input[k];
    }
    FirstTrueIs(flags, 0, k);
  }

  /** What reading line `k` tells about the first winning line, when none before `k` won. */
  lemma PlayStep(target: nat, input: seq<string>, k: nat, stop: bool)
    requires k < |input| && (stop <==> Wins(target, input[k]))
    ensures stop ==> FirstWinFrom(target, input, k) == Some(k)
    ensures !stop ==> FirstWinFrom(target, input, k) == FirstWinFrom(target, input, k + 1)
  {
    assert WinFlags(target, input)[k] == Wins(target, input[k]);
  }

  /** Printing the prompt and the rest of round `k` extends the output by exactly that round. */
  lemma OutputStep(target: nat, input: seq<string>, k: nat, before: seq<string>, out: seq<string>)
    requires k < |input|
    requires before == [Banner] + Transcript(target, input[..k])
    requires [Prompt] + out == Round(target, input[k])
    ensures before + [Prompt] + out == [Banner] + Transcript(target, input[..k + 1])
  {
    TranscriptStep(target, input, k);
    Regroup(Banner, Transcript(target, input[..k]), [Prompt] + out);
  }

  lemma Regroup(b: string, t: seq<string>, u: seq<string>)
    requires u != []
    ensures [b] + t + [u[0]] + u[1..] == [b] + (t + u)
  {
    assert u == [u[0]] + u[1..];
  }

  lemma TranscriptStep(target: nat, input: seq<string>, k: nat)
    requires k < |input|
    ensures Transcript(target, input[..k + 1]) == Transcript(target, input[..k]) + Round(target, input[k])
  {
    assert input[..k + 1][..k] == input[..k];
  }

  lemma WinDiffersFromOtherLines(n: nat)
    ensures Win != Prompt && Win != Echo(n) && Win != TooSmall && Win != TooBig
  {
    assert Win[4] != Echo(n)[4];
  }

  /** A round announces a win exactly when its line guesses the target. */
  lemma RoundWinCount(target: nat, line: string)
    ensures multiset(Round(target, line))[Win] == if Wins(target, line) then 1 else 0
  {
    match Guess(line)
    case None =>
    case Some(n) =>
      WinDiffersFromOtherLines(n);
      assert Round(target, line) == [Prompt] + [Echo(n)] + [Verdict(n, target)];
  }

  /** While no consumed line guesses the target, "You win!" is never printed. */
  lemma {:induction false} NoWinWithoutWinningLine(target: nat, lines: seq<string>)
    requires forall i :: 0 <= i < |lines| ==> !Wins(target, lines[i])
    ensures Win !in Transcript(target, lines)
  {
    if lines != [] {
      var init := lines[..|lines| - 1];
      NoWinWithoutWinningLine(target, init);
      RoundWinCount(target, lines[|lines| - 1]);
      assert Win !in Round(target, lines[|lines| - 1]);
    }
  }

  /**
    When the game is won, the output ends with "You win!" and contains it
    exactly once: no earlier line won, and nothing after the win is read.
  */
  lemma WinAnnouncedOnceAtEnd(target: nat, lines: seq<string>)
    requires lines != [] && FirstWinFrom(target, lines, 0) == Some(|lines| - 1)
    ensures var out := [Banner] + Transcript(target, lines); out[|out| - 1] == Win && multiset(out)[Win] == 1
  {
    var init := lines[..|lines| - 1];
    var last := lines[|lines| - 1];
    WonGameParts(target, lines);
    TranscriptLast(target, lines);
    LastAndOnly(Banner, Transcript(target, init), Round(target, last), Win);
  }

  /** Before the winning line nothing announced a win; the winning line's round ends with the one announcement. */
  lemma WonGameParts(target: nat, lines: seq<string>)
    requires lines != [] && FirstWinFrom(target, lines, 0) == Some(|lines| - 1)
    ensures Win !in Transcript(target, lines[..|lines| - 1])
    ensures var r := Round(target, lines[|lines| - 1]); r != [] && r[|r| - 1] == Win && multiset(r)[Win] == 1
    ensures Banner != Win
  {
    var init := lines[..|lines| - 1];
    FirstWinFromFound(target, lines, 0);
    forall i | 0 <= i < |init| ensures !Wins(target, init[i]) {
      assert init[i] == lines[i];
    }
    NoWinWithoutWinningLine(target, init);
    WinningRound(target, lines[|lines| - 1]);
    assert Banner[0] != Win[0];
  }

  lemma TranscriptLast(target: nat, lines: seq<string>)
    requires lines != []
    ensures Transcript(target, lines) == Transcript(target, lines[..|lines| - 1]) + Round(target, lines[|lines| - 1])
  {
  }

  /** The round of a winning line ends with "You win!" and prints it once. */
  lemma WinningRound(target: nat, line: string)
    requires Wins(target, line)
    ensures var r := Round(target, line); r != [] && r[|r| - 1] == Win && multiset(r)[Win] == 1
  {
    RoundWinCount(target, line);
    assert Round(target, line) == [Prompt, Echo(target), Verdict(target, target)];
  }

  lemma LastAndOnly(banner: string, t: seq<string>, r: seq<string>, w: string)
    requires banner != w && w !in t && r != [] && r[|r| - 1] == w && multiset(r)[w] == 1
    ensures var out := [banner] + (t + r); out[|out| - 1] == w && multiset(out)[w] == 1
  {
  }

  /** A line typed as a number in range, with its newline, is read as that number. */
  lemma TypedNumberIsRead(n: nat)
    requires n < U32Limit
    ensures Guess(NatToString(n) + "\n") == Some(n)
  {
    var s := NatToString(n);
    var line := s + "\n";
    assert line[0] == s[0] && IsDigit(s[0]);
    assert LeadingWhitespace(line) == 0;
    assert line[..|line| - 1] == s;
    assert IsDigit(s[|s| - 1]);
    assert TrailingWhitespace(line) == 1;
    assert Trim(line) == s;
    ParseU32RoundTrip(n);
  }
}
