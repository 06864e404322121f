/**
 * The post-processing the test harness applies to the text the prompt
 * program prints: removing shell prompt-escape markers, removing ANSI colour
 * codes, splitting into lines and into the parts separated by two spaces,
 * and picking one part out by the glyph it starts with.
 *
 * Every operation takes the captured standard output as a string; running
 * the prompt program to obtain it is not part of this model.
 */
module PromptHelpers {
  import opened Wrappers
  import opened PyStr

  // ---------------------------------------------------------------------
  // clean_output

  /**
   * Deletes the bash prompt-escape markers `\[` and `\]` and the zsh markers
   * `%{` and `%}`, one full pass per marker, in that order.
   */
  function CleanOutput(output: string): string {
    var o1 := Replace(output, "\\[", "");
    var o2 := Replace(o1, "\\]", "");
    var o3 := Replace(o2, "%{", "");
    Replace(o3, "%}", "")
  }

  /** Cleaning removes characters and never adds any. */
  lemma CleanOutputNotLonger(output: string)
    ensures |CleanOutput(output)| <= |output|
  {
    var o1 := Replace(output, "\\[", "");
    var o2 := Replace(o1, "\\]", "");
    var o3 := Replace(o2, "%{", "");
    ReplaceNotLonger(output, "\\[", "");
    ReplaceNotLonger(o1, "\\]", "");
    ReplaceNotLonger(o2, "%{", "");
    ReplaceNotLonger(o3, "%}", "");
  }

  /** Output with neither a backslash nor a percent sign is left as it is. */
  lemma CleanOutputUnchanged(output: string)
    requires '\\' !in output && '%' !in output
    ensures CleanOutput(output) == output
  {
    ReplaceAbsent(output, "\\[", "");
    ReplaceAbsent(output, "\\]", "");
    ReplaceAbsent(output, "%{", "");
    ReplaceAbsent(output, "%}", "");
  }

  /**
   * Each pass deletes exactly the occurrences of its marker: what it keeps
   * is the text between them, in order (`s.replace(m, "") == "".join(s.split(m))`).
   */
  lemma CleanOutputPasses(output: string)
    ensures var o1 := Join("", Split(output, "\\["));
      var o2 := Join("", Split(o1, "\\]"));
      var o3 := Join("", Split(o2, "%{"));
      CleanOutput(output) == Join("", Split(o3, "%}"))
  {
    var o1 := Replace(output, "\\[", "");
    var o2 := Replace(o1, "\\]", "");
    var o3 := Replace(o2, "%{", "");
    ReplaceIsJoinOfSplit(output, "\\[", "");
    ReplaceIsJoinOfSplit(o1, "\\]", "");
    ReplaceIsJoinOfSplit(o2, "%{", "");
    ReplaceIsJoinOfSplit(o3, "%}", "");
  }

  /**
   * The passes run one after the other, so a marker can be formed by a
   * later deletion and survive: `\%{[` becomes `\[`.
   */
  lemma CleanOutputCanLeaveMarker()
    ensures CleanOutput("\\%{[") == "\\["
  {
    var s := "\\%{[";
    assert Replace(s, "\\[", "") == s by {
      assert !StartsWith(s, "\\[");
      assert Replace("%{[", "\\[", "") == "%{[";
    }
    assert Replace(s, "\\]", "") == s by {
      assert !StartsWith(s, "\\]");
      assert Replace("%{[", "\\]", "") == "%{[";
    }
    assert Replace(s, "%{", "") == "\\[" by {
      assert !StartsWith(s, "%{");
      assert s[1..] == "%{[";
      assert StartsWith("%{[", "%{");
      assert "%{["[2..] == "[";
      assert Replace("[", "%{", "") == "[";
    }
    assert Replace("\\[", "%}", "") == "\\[" by {
      assert Replace("[", "%}", "") == "[";
    }
  }

  // ---------------------------------------------------------------------
  // clean_color_codes

  const Esc: char := '\U{1B}'

  /** The characters `[0-9;]` allowed between `ESC [` and `m`. */
  predicate IsParamChar(c: char) {
    '0' <= c <= '9' || c == ';'
  }

  /** Length of the longest prefix of `s` made of parameter characters. */
  function ParamRun(s: string): (n: nat)
    ensures n <= |s|
    ensures forall k :: 0 <= k < n ==> IsParamChar(s[k])
    ensures n < |s| ==> !IsParamChar(s[n])
    decreases |s|
  {
    if |s| > 0 && IsParamChar(s[0]) then 1 + ParamRun(s[1..]) else 0
  }

  /** The first `n` characters of `s` are one colour code `ESC [ [0-9;]* m`. */
  predicate IsCode(s: string, n: int) {
    3 <= n <= |s| && s[0] == Esc && s[1] == '[' && s[n - 1] == 'm' &&
    forall k :: 2 <= k < n - 1 ==> IsParamChar(s[k])
  }

  /**
   * The length of the colour code that starts `s`, if one does. The
   * parameter run is taken as long as it goes.
   */
  function CodeAt(s: string): (r: Option<nat>)
    ensures r.Some? ==> IsCode(s, r.value)
  {
    if 2 <= |s| && s[0] == Esc && s[1] == '[' then
      var n := ParamRun(s[2..]);
      if 2 + n < |s| && s[2 + n] == 'm' then Some(3 + n) else None
    else None
  }

  /**
   * `CodeAt` finds every code: whenever some prefix of `s` is a colour code,
   * `CodeAt` returns its length. A shorter parameter run would be followed by
   * a parameter character, never by `m`, so that prefix is the only one.
   */
  lemma CodeAtComplete(s: string, n: int)
    requires IsCode(s, n)
    ensures CodeAt(s) == Some(n)
  {
    var t := s[2..];
    var run := ParamRun(t);
    assert forall k :: 0 <= k < n - 3 ==> IsParamChar(t[k]) by {
      assert forall k :: 0 <= k < n - 3 ==> t[k] == s[k + 2];
    }
    assert t[n - 3] == 'm';
  }

  /**
   * `re.sub(COLOR_CODE_PATTERN, "", output)`: one left-to-right scan that
   * deletes each colour code it finds and copies every other character.
   */
  function CleanColorCodes(output: string): (r: string)
    ensures |r| <= |output|
    decreases |output|
  {
    if |output| == 0 then ""
    else match CodeAt(output)
      case Some(n) => CleanColorCodes(output[n..])
      case None => [output[0]] + CleanColorCodes(output[1..])
  }

  /** Text with no ESC character holds no colour code and is returned unchanged. */
  lemma {:induction false} CleanColorCodesNoEsc(output: string)
    requires Esc !in output
    ensures CleanColorCodes(output) == output
    decreases |output|
  {
    if |output| > 0 {
      assert output[0] in output;
      assert Esc !in output[1..] by { assert forall c :: c in output[1..] ==> c in output; }
      CleanColorCodesNoEsc(output[1..]);
      assert output == [output[0]] + output[1..];
    }
  }

  /** A piece of coloured text: plain characters, or one colour code `ESC [ params m`. */
  datatype Piece = Text(text: string) | Code(params: string)

  function RenderPiece(p: Piece): string {
    match p
    case Text(t) => t
    case Code(ps) => [Esc, '['] + ps + "m"
  }

  /** The characters the pieces print, colour codes included. */
  function Render(ps: seq<Piece>): string
    decreases |ps|
  {
    if |ps| == 0 then "" else RenderPiece(ps[0]) + Render(ps[1..])
  }

  /** The characters the pieces print, colour codes left out. */
  function PlainText(ps: seq<Piece>): string
    decreases |ps|
  {
    if |ps| == 0 then ""
    else (match ps[0] case Text(t) => t case Code(_) => "") + PlainText(ps[1..])
  }

  /** Every ESC in `t` is followed, inside `t`, by a character other than `[`, so no code starts in `t`. */
  predicate NoCodeStart(t: string) {
    forall k :: 0 <= k < |t| && t[k] == Esc ==> k + 1 < |t| && t[k + 1] != '['
  }

  /**
   * Text pieces start no colour code (an ESC in them is followed by
   * something other than `[`), and code parameters are `[0-9;]*`.
   */
  predicate WellFormedPiece(p: Piece) {
    match p
    case Text(t) => NoCodeStart(t)
    case Code(ps) => forall k :: 0 <= k < |ps| ==> IsParamChar(ps[k])
  }

  /**
   * Colouring plain text with any colour codes and then cleaning gives the
   * plain text back: every code is removed and every other character is
   * kept, in order.
   */
  lemma {:induction false} CleanColoredText(ps: seq<Piece>)
    requires forall i :: 0 <= i < |ps| ==> WellFormedPiece(ps[i])
    ensures CleanColorCodes(Render(ps)) == PlainText(ps)
    decreases |ps|
  {
    if |ps| > 0 {
      CleanColoredText(ps[1..]);
      var rest := Render(ps[1..]);
      match ps[0]
      case Text(t) =>
        CleanAfterPlain(t, rest);
      case Code(params) =>
        CleanAfterCode(params, rest);
    }
  }

  /** Cleaning passes over a prefix in which no code starts unchanged. */
  lemma {:induction false} CleanAfterPlain(t: string, rest: string)
    requires NoCodeStart(t)
    ensures CleanColorCodes(t + rest) == t + CleanColorCodes(rest)
    decreases |t|
  {
    if |t| > 0 {
      var s := t + rest;
      assert s[0] == t[0];
      if t[0] == Esc {
        assert s[1] == t[1];
      }
      assert CodeAt(s).None?;
      assert s[1..] == t[1..] + rest;
      assert NoCodeStart(t[1..]) by {
        assert forall k :: 0 <= k < |t| - 1 ==> t[1..][k] == t[k + 1];
      }
      CleanAfterPlain(t[1..], rest);
      assert t == [t[0]] + t[1..];
    } else {
      assert t + rest == rest;
    }
  }

  /** A colour code at the front is deleted whole. */
  lemma CleanAfterCode(params: string, rest: string)
    requires forall k :: 0 <= k < |params| ==> IsParamChar(params[k])
    ensures CleanColorCodes(RenderPiece(Code(params)) + rest) == CleanColorCodes(rest)
  {
    var s := RenderPiece(Code(params)) + rest;
    assert s[2..] == params + "m" + rest;
    ParamRunStops(params, rest);
    assert s[2 + |params|] == 'm';
    assert CodeAt(s) == Some(3 + |params|);
    assert s[3 + |params|..] == rest;
  }

  lemma {:induction false} ParamRunStops(params: string, rest: string)
    requires forall k :: 0 <= k < |params| ==> IsParamChar(params[k])
    ensures ParamRun(params + "m" + rest) == |params|
    decreases |params|
  {
    if |params| > 0 {
      assert (params + "m" + rest)[1..] == params[1..] + "m" + rest;
      ParamRunStops(params[1..], rest);
    }
  }

  /**
   * The scan does not look back, so cleaning is not idempotent: a code that
   * encloses another one survives the first pass.
   */
  lemma CleanColorCodesNotIdempotent()
    ensures CleanColorCodes([Esc, Esc, '[', 'm', '[', 'm']) == [Esc, '[', 'm']
    ensures CleanColorCodes([Esc, '[', 'm']) == []
  {
    var s := [Esc, Esc, '[', 'm', '[', 'm'];
    assert CodeAt(s).None?;
    assert s[1..] == [Esc, '[', 'm', '[', 'm'];
    assert ParamRun(['m', '[', 'm']) == 0;
    assert CodeAt(s[1..]) == Some(3);
    assert s[1..][3..] == ['[', 'm'];
    assert CodeAt(['[', 'm']).None?;
    assert CodeAt(['m']).None?;
    assert CleanColorCodes(['m']) == ['m'];
    assert CleanColorCodes(['[', 'm']) == ['[', 'm'];
    assert ParamRun(['m']) == 0;
    assert CodeAt([Esc, '[', 'm']) == Some(3);
  }

  // ---------------------------------------------------------------------
  // get_prompt, get_prompt_lines, get_prompt_parts

  /** The captured output, stripped of surrounding whitespace and then cleaned. */
  function GetPrompt(stdout: string): string {
    CleanOutput(Strip(stdout, Whitespace))
  }

  /** The prompt's lines, each stripped of surrounding whitespace. */
  function GetPromptLines(stdout: string): (lines: seq<string>)
    ensures |lines| >= 1
  {
    var raw := Split(GetPrompt(stdout), "\n");
    seq(|raw|, i requires 0 <= i < |raw| => Strip(raw[i], Whitespace))
  }

  /** The first line cut at every two-space separator. */
  function GetPromptParts(stdout: string): seq<string> {
    Split(GetPromptLines(stdout)[0], "  ")
  }

  /**
   * `line` is `piece` with the whitespace around it cut off and nothing
   * else: a contiguous piece of it, everything cut is whitespace, it has no
   * surrounding whitespace itself, and it holds no line break.
   */
  predicate StrippedLine(piece: string, line: string) {
    Trimmed(line, Whitespace) && '\n' !in line &&
    exists j :: 0 <= j <= |piece| && CutFrom(piece, line, Whitespace, j)
  }

  /**
   * There is one line per line break in the stripped, cleaned output, plus
   * one, and line `i` is the `i`-th piece between line breaks, stripped.
   */
  lemma PromptLinesShape(stdout: string)
    ensures |GetPromptLines(stdout)| == |Split(GetPrompt(stdout), "\n")|
    ensures |GetPromptLines(stdout)| == 1 + CountChar(GetPrompt(stdout), '\n')
    ensures forall i :: 0 <= i < |GetPromptLines(stdout)| ==>
      StrippedLine(Split(GetPrompt(stdout), "\n")[i], GetPromptLines(stdout)[i])
  {
    var prompt := GetPrompt(stdout);
    var raw := Split(prompt, "\n");
    var lines := GetPromptLines(stdout);
    SplitCount(prompt, "\n");
    OccurrencesOfChar(prompt, '\n');
    SplitPiecesFree(prompt, "\n");
    forall i | 0 <= i < |lines|
      ensures StrippedLine(raw[i], lines[i])
    {
      assert lines[i] == Strip(raw[i], Whitespace);
      ContainsChar(raw[i], '\n');
      StrippedPiece(raw[i]);
    }
  }

  /** Stripping a piece with no line break gives its stripped line. */
  lemma StrippedPiece(piece: string)
    requires '\n' !in piece
    ensures StrippedLine(piece, Strip(piece, Whitespace))
  {
    var line := Strip(piece, Whitespace);
    StripSpec(piece, Whitespace);
    var j :| CutFrom(piece, line, Whitespace, j);
    assert forall c :: c in line ==> c in piece;
  }

  /**
   * There is at least one part; joining the parts with two spaces gives the
   * first line back exactly, and no part holds two spaces in a row.
   */
  lemma PromptPartsShape(stdout: string)
    ensures |GetPromptParts(stdout)| >= 1
    ensures Join("  ", GetPromptParts(stdout)) == GetPromptLines(stdout)[0]
    ensures forall i :: 0 <= i < |GetPromptParts(stdout)| ==> !Contains(GetPromptParts(stdout)[i], "  ")
  {
    SplitJoin(GetPromptLines(stdout)[0], "  ");
    SplitPiecesFree(GetPromptLines(stdout)[0], "  ");
  }

  // ---------------------------------------------------------------------
  // get_prompt_part

  /**
   * The glyphs that open the git, shell, memory-usage and time parts. They
   * are icon-font characters; `SourceGlyphs` holds the ones the harness
   * compares against.
   */
  datatype Glyphs = Glyphs(git: string, shell: string, memoryUsage: string, time: string)

  const SourceGlyphs := Glyphs("\U{F418}", "\U{EBCA}", "\U{F04C5}", "\U{F051B}")

  /** Whether `part`, with its colour codes removed, opens the way `name`'s part does. */
  predicate PartMatches(name: string, part: string, g: Glyphs) {
    var clean := CleanColorCodes(part);
    (name == "git" && (StartsWith(clean, g.git) || StartsWith(clean, "@"))) ||
    (name == "shell" && StartsWith(clean, g.shell)) ||
    (name == "memory_usage" && StartsWith(clean, g.memoryUsage)) ||
    (name == "time" && StartsWith(clean, g.time))
  }

  /** `k` is the first part that matches `name`. */
  predicate IsFirstMatch(parts: seq<string>, name: string, g: Glyphs, k: int) {
    0 <= k < |parts| && PartMatches(name, parts[k], g) &&
    forall j :: 0 <= j < k ==> !PartMatches(name, parts[j], g)
  }

  /** The position of the first part that matches `name`, scanning from the front. */
  function FirstMatch(parts: seq<string>, name: string, g: Glyphs): (k: Option<nat>)
    ensures k.Some? ==> IsFirstMatch(parts, name, g, k.value)
    ensures k.None? ==> forall j :: 0 <= j < |parts| ==> !PartMatches(name, parts[j], g)
    decreases |parts|
  {
    if |parts| == 0 then None
    else if PartMatches(name, parts[0], g) then Some(0)
    else match FirstMatch(parts[1..], name, g)
      case None => None
      case Some(j) => Some(j + 1)
  }

  /**
   * `get_prompt_part`: the first part for `"main"`, otherwise the first part
   * (as printed, colour codes and all) whose cleaned text starts with the
   * name's glyph, or `None`.
   */
  function GetPromptPart(stdout: string, partName: string, g: Glyphs): Option<string> {
    var parts := GetPromptParts(stdout);
    if partName == "main" then Some(parts[0])
    else match FirstMatch(parts, partName, g)
      case Some(k) => Some(parts[k])
      case None => None
  }

  /** The `"main"` part is always there: it is the first part. */
  lemma PromptPartMain(stdout: string, g: Glyphs)
    ensures GetPromptPart(stdout, "main", g) == Some(GetPromptParts(stdout)[0])
  {
  }

  /**
   * For any other name the result is the uncleaned text of the earliest
   * matching part, and `None` exactly when no part matches.
   */
  lemma PromptPartFirstMatch(stdout: string, partName: string, g: Glyphs)
    requires partName != "main"
    ensures var parts := GetPromptParts(stdout);
      var r := GetPromptPart(stdout, partName, g);
      (r.None? <==> forall j :: 0 <= j < |parts| ==> !PartMatches(partName, parts[j], g)) &&
      (forall k :: IsFirstMatch(parts, partName, g, k) ==> r == Some(parts[k]))
  {
    var parts := GetPromptParts(stdout);
    forall k | IsFirstMatch(parts, partName, g, k)
      ensures GetPromptPart(stdout, partName, g) == Some(parts[k])
    {
      var m := FirstMatch(parts, partName, g);
      assert m.Some? by { assert PartMatches(partName, parts[k], g); }
      assert !(m.value < k) && !(k < m.value);
    }
  }

  /** A name that is none of the five the harness knows never finds a part. */
  lemma PromptPartUnknownName(stdout: string, partName: string, g: Glyphs)
    requires partName !in ["main", "git", "shell", "memory_usage", "time"]
    ensures GetPromptPart(stdout, partName, g) == None
  {
  }
}
