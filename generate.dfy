/**
 * The text handling inside the demo recorder: escaping a shell command for
 * an AppleScript string, printing an action's settings, reading the window
 * bounds AppleScript reports, and rewriting the `palette = ` line of the
 * prompt configuration.
 *
 * The AppleScript calls, the screenshots, the sleeps and the reading and
 * writing of the configuration file around these fragments are not modelled.
 */
module Generate {
  import opened Wrappers
  import opened PyStr
  import opened PyInt

  // ---------------------------------------------------------------------
  // escape_command

  /** Doubles every backslash of `command`. */
  function EscapeCommand(command: string): string {
    Replace(command, "\\", "\\\\")
  }

  /** Escaping works one character at a time: a backslash becomes two, anything else stays. */
  lemma EscapeCommandCons(c: char, rest: string)
    ensures EscapeCommand([c] + rest) == (if c == '\\' then "\\\\" else [c]) + EscapeCommand(rest)
  {
    var s := [c] + rest;
    assert StartsWith(s, "\\") <==> c == '\\';
    assert s[1..] == rest;
  }

  /** Escaping a concatenation is concatenating the escapes. */
  lemma {:induction false} EscapeCommandConcat(a: string, b: string)
    ensures EscapeCommand(a + b) == EscapeCommand(a) + EscapeCommand(b)
    decreases |a|
  {
    if |a| == 0 {
      assert a + b == b;
    } else {
      assert a + b == [a[0]] + (a[1..] + b);
      assert a == [a[0]] + a[1..];
      EscapeCommandCons(a[0], a[1..] + b);
      EscapeCommandCons(a[0], a[1..]);
      EscapeCommandConcat(a[1..], b);
    }
  }

  /** The escaped command is one character longer per backslash. */
  lemma EscapeCommandLength(command: string)
    ensures |EscapeCommand(command)| == |command| + CountChar(command, '\\')
  {
    ReplaceLength(command, "\\", "\\\\");
    OccurrencesOfChar(command, '\\');
  }

  /** Collapsing every `\\` pair back to `\` recovers the original command. */
  lemma {:induction false} EscapeCommandRoundTrip(command: string)
    ensures Replace(EscapeCommand(command), "\\\\", "\\") == command
    decreases |command|
  {
    if |command| > 0 {
      var c, rest := command[0], command[1..];
      assert command == [c] + rest;
      EscapeCommandCons(c, rest);
      EscapeCommandRoundTrip(rest);
      var e := EscapeCommand(rest);
      if c == '\\' {
        var s := "\\\\" + e;
        assert StartsWith(s, "\\\\");
        assert s[2..] == e;
      } else {
        var s := [c] + e;
        assert !StartsWith(s, "\\\\");
        assert s[1..] == e;
      }
    }
  }

  // ---------------------------------------------------------------------
  // format_action_details

  /**
   * An action's settings in dictionary order, each value given as the text
   * `str` makes of it.
   */
  type Action = seq<(string, string)>

  /** `k="v"` */
  function RenderEntry(key: string, value: string): string {
    key + "=\"" + value + "\""
  }

  function RenderEntries(action: Action): (r: seq<string>)
    ensures |r| == |action|
    decreases |action|
  {
    if |action| == 0 then [] else [RenderEntry(action[0].0, action[0].1)] + RenderEntries(action[1..])
  }

  /** The entries rendered as `k="v"`, in order, joined by single spaces. */
  function FormatActionDetails(action: Action): string {
    Join(" ", RenderEntries(action))
  }

  /** An action with no settings prints as the empty string, one setting as `k="v"` alone. */
  lemma FormatActionDetailsSmall(key: string, value: string)
    ensures FormatActionDetails([]) == ""
    ensures FormatActionDetails([(key, value)]) == RenderEntry(key, value)
  {
    assert RenderEntries([(key, value)]) == [RenderEntry(key, value)] by {
      assert [(key, value)][1..] == [];
    }
  }

  /** The settings of `a` and then of `b` print as `a`'s text, one space, `b`'s text. */
  lemma FormatActionDetailsAppend(a: Action, b: Action)
    requires |a| > 0 && |b| > 0
    ensures FormatActionDetails(a + b) == FormatActionDetails(a) + " " + FormatActionDetails(b)
  {
    RenderEntriesAppend(a, b);
    JoinAppend(" ", RenderEntries(a), RenderEntries(b));
  }

  lemma {:induction false} RenderEntriesAppend(a: Action, b: Action)
    ensures RenderEntries(a + b) == RenderEntries(a) + RenderEntries(b)
    decreases |a|
  {
    if |a| == 0 {
      assert a + b == b;
    } else {
      assert (a + b)[0] == a[0];
      assert (a + b)[1..] == a[1..] + b;
      RenderEntriesAppend(a[1..], b);
    }
  }

  lemma {:induction false} JoinAppend(sep: string, p: seq<string>, q: seq<string>)
    requires |p| > 0 && |q| > 0
    ensures Join(sep, p + q) == Join(sep, p) + sep + Join(sep, q)
    decreases |p|
  {
    if |p| == 1 {
      assert (p + q)[1..] == q;
    } else {
      assert (p + q)[1..] == p[1..] + q;
      JoinAppend(sep, p[1..], q);
    }
  }

  /** The first position of `c` in `s`. */
  function IndexOf(s: string, c: char): (r: Option<nat>)
    ensures r.Some? ==> r.value < |s| && s[r.value] == c && c !in s[..r.value]
    ensures r.None? ==> c !in s
    decreases |s|
  {
    if |s| == 0 then None
    else if s[0] == c then Some(0)
    else match IndexOf(s[1..], c)
      case None => None
      case Some(i) => Some(i + 1)
  }

  /**
   * Reads back `k="v"` entries separated by single spaces: a key runs to the
   * first `=`, a value from the `"` after it to the next `"`.
   */
  function ParseActionDetails(s: string): Option<Action> {
    if s == "" then Some([]) else ParseEntries(s)
  }

  function ParseEntries(s: string): Option<Action>
    decreases |s|
  {
    match ParseEntry(s)
    case None => None
    case Some((entry, after)) =>
      if after == "" then Some([entry])
      else if after[0] == ' ' then
        match ParseEntries(after[1..])
        case None => None
        case Some(es) => Some([entry] + es)
      else None
  }

  /** The first `k="v"` entry of `s`, and the text after its closing quote. */
  function ParseEntry(s: string): (r: Option<((string, string), string)>)
    ensures r.Some? ==> |r.value.1| < |s|
  {
    match IndexOf(s, '=')
    case None => None
    case Some(i) =>
      if i + 1 < |s| && s[i + 1] == '"' then
        var rest := s[i + 2..];
        match IndexOf(rest, '"')
        case None => None
        case Some(j) => Some(((s[..i], rest[..j]), rest[j + 1..]))
      else None
  }

  /** No key holds `=` and no value holds `"`. */
  predicate Unambiguous(action: Action) {
    forall i :: 0 <= i < |action| ==> '=' !in action[i].0 && '"' !in action[i].1
  }

  /** With keys free of `=` and values free of `"`, the printed settings determine the action. */
  lemma {:induction false} FormatActionDetailsRoundTrip(action: Action)
    requires Unambiguous(action)
    ensures ParseActionDetails(FormatActionDetails(action)) == Some(action)
    decreases |action|
  {
    if |action| > 0 {
      var (k, v) := action[0];
      var tail := action[1..];
      assert Unambiguous(tail) by {
        forall i | 0 <= i < |tail| ensures '=' !in tail[i].0 && '"' !in tail[i].1 {
          assert tail[i] == action[i + 1];
        }
      }
      if |tail| == 0 {
        assert action == [(k, v)];
        ReadLastEntry(k, v);
      } else {
        FormatActionDetailsRoundTrip(tail);
        NonEmptyFormat(tail);
        assert action == [(k, v)] + tail;
        FormatActionDetailsAppend([(k, v)], tail);
        FormatActionDetailsSmall(k, v);
        ReadEntryThenMore(k, v, FormatActionDetails(tail), tail);
      }
    }
  }

  /** A single rendered entry is read back as that one entry. */
  lemma ReadLastEntry(k: string, v: string)
    requires '=' !in k && '"' !in v
    ensures ParseActionDetails(FormatActionDetails([(k, v)])) == Some([(k, v)])
  {
    FormatActionDetailsSmall(k, v);
    ReadEntry(k, v, "");
    assert RenderEntry(k, v) + "" == RenderEntry(k, v);
  }

  /** An entry, a space and further text that reads back as `tail` read back as the entry then `tail`. */
  lemma ReadEntryThenMore(k: string, v: string, rest: string, tail: Action)
    requires '=' !in k && '"' !in v
    requires rest != "" && ParseActionDetails(rest) == Some(tail)
    ensures ParseActionDetails(RenderEntry(k, v) + " " + rest) == Some([(k, v)] + tail)
  {
    ReadEntry(k, v, " " + rest);
    assert RenderEntry(k, v) + " " + rest == RenderEntry(k, v) + (" " + rest);
    assert (" " + rest)[1..] == rest;
  }

  lemma NonEmptyFormat(action: Action)
    requires |action| > 0
    ensures FormatActionDetails(action) != ""
  {
    if |action| == 1 {
      FormatActionDetailsSmall(action[0].0, action[0].1);
      assert action == [(action[0].0, action[0].1)];
    } else {
      assert action == [action[0]] + action[1..];
      FormatActionDetailsAppend([action[0]], action[1..]);
    }
  }

  /** The entry at the front of the text is read as its key and value. */
  lemma ReadEntry(k: string, v: string, after: string)
    requires '=' !in k && '"' !in v
    ensures ParseEntry(RenderEntry(k, v) + after) == Some(((k, v), after))
  {
    var rest := v + "\"" + after;
    assert RenderEntry(k, v) + after == k + "=\"" + rest;
    ReadKey(k, rest);
    ReadValue(v, after);
  }

  /** After a key free of `=`, the text `="` is found and the value text follows it. */
  lemma ReadKey(k: string, rest: string)
    requires '=' !in k
    ensures var s := k + "=\"" + rest;
      IndexOf(s, '=') == Some(|k|) && |k| + 1 < |s| && s[|k| + 1] == '"' &&
      s[..|k|] == k && s[|k| + 2..] == rest
  {
    var s := k + "=\"" + rest;
    assert s == k + "=" + ("\"" + rest);
    IndexOfAfter(k, '=', "\"" + rest);
  }

  /** A value free of `"` ends at the first `"`, and what follows that quote is left over. */
  lemma ReadValue(v: string, after: string)
    requires '"' !in v
    ensures var rest := v + "\"" + after;
      IndexOf(rest, '"') == Some(|v|) && rest[..|v|] == v && rest[|v| + 1..] == after
  {
    IndexOfAfter(v, '"', after);
  }

  lemma {:induction false} IndexOfAfter(a: string, c: char, b: string)
    requires c !in a
    ensures IndexOf(a + [c] + b, c) == Some(|a|)
    decreases |a|
  {
    if |a| > 0 {
      assert a[0] in a;
      assert (a + [c] + b)[1..] == a[1..] + [c] + b;
      assert c !in a[1..] by { assert forall x :: x in a[1..] ==> x in a; }
      IndexOfAfter(a[1..], c, b);
    }
  }

  // ---------------------------------------------------------------------
  // the screenshot branch: parsing the window bounds

  datatype Bounds = Bounds(x: int, y: int, width: int, height: int)

  /** Unpacking into four names fails on another field count; `int` fails on a bad field. */
  datatype BoundsError = WrongFieldCount(count: nat) | NotAnInteger(field: nat)

  const Braces: set<char> := {'{', '}'}

  /** The comma-separated fields left once the braces around the text are stripped. */
  function BoundsFields(out: string): (fields: seq<string>)
    ensures |fields| >= 1
  {
    Split(Strip(out, Braces), ",")
  }

  /**
   * `x, y, width, height = out.strip("{}").split(",")` and then `int` of
   * each field, the first failing field reported.
   */
  function ParseBounds(out: string): Result<Bounds, BoundsError> {
    FieldsToBounds(BoundsFields(out))
  }

  /** Unpacking the fields into four names and converting each with `int`, in order. */
  function FieldsToBounds(fields: seq<string>): Result<Bounds, BoundsError> {
    if |fields| != 4 then Err(WrongFieldCount(|fields|))
    else Convert([ParseInt(fields[0]), ParseInt(fields[1]), ParseInt(fields[2]), ParseInt(fields[3])])
  }

  /** The four converted fields as bounds, or the position of the first one that failed. */
  function Convert(nums: seq<Option<int>>): Result<Bounds, BoundsError>
    requires |nums| == 4
  {
    if nums[0].None? then Err(NotAnInteger(0))
    else if nums[1].None? then Err(NotAnInteger(1))
    else if nums[2].None? then Err(NotAnInteger(2))
    else if nums[3].None? then Err(NotAnInteger(3))
    else Ok(Bounds(nums[0].value, nums[1].value, nums[2].value, nums[3].value))
  }

  /** Any other number of fields than four is reported as such, before any field is converted. */
  lemma ParseBoundsFieldCount(out: string)
    requires |BoundsFields(out)| != 4
    ensures ParseBounds(out) == Err(WrongFieldCount(|BoundsFields(out)|))
  {
  }

  /**
   * Four fields that all convert give the bounds they spell; otherwise the
   * first field that does not convert is reported.
   */
  lemma ConvertSpec(nums: seq<Option<int>>)
    requires |nums| == 4
    ensures Convert(nums).Ok? <==> forall i :: 0 <= i < 4 ==> nums[i].Some?
    ensures Convert(nums).Ok? ==>
      Convert(nums).value == Bounds(nums[0].value, nums[1].value, nums[2].value, nums[3].value)
    ensures forall k :: 0 <= k < 4 && nums[k].None? && (forall j :: 0 <= j < k ==> nums[j].Some?) ==>
      Convert(nums) == Err(NotAnInteger(k))
  {
  }

  /** The text AppleScript gives for a list of four numbers, with or without braces. */
  function FormatBounds(b: Bounds, braces: bool): string {
    var body := Join(", ", BoundsItems(b));
    if braces then "{" + body + "}" else body
  }

  /** The bounds AppleScript reports are read back as the same four numbers. */
  lemma ParseBoundsRoundTrip(b: Bounds, braces: bool)
    ensures ParseBounds(FormatBounds(b, braces)) == Ok(b)
  {
    FormatBoundsFields(b, braces);
    ConvertFormattedFields(b);
  }

  /** Each field of formatted bounds converts back to its number. */
  lemma ConvertFormattedFields(b: Bounds)
    ensures FieldsToBounds([IntToString(b.x), " " + IntToString(b.y),
                            " " + IntToString(b.width), " " + IntToString(b.height)]) == Ok(b)
  {
    ParseIntToString(b.x);
    ParseIntSpaced(b.y);
    ParseIntSpaced(b.width);
    ParseIntSpaced(b.height);
  }

  lemma ParseIntSpaced(i: int)
    ensures ParseInt(" " + IntToString(i)) == Some(i)
  {
    assert AllIn(" ", Whitespace);
    ParseIntPadded(" ", i, "");
    assert " " + IntToString(i) + "" == " " + IntToString(i);
  }

  /** The four numbers of some bounds, as `str` writes them. */
  function BoundsItems(b: Bounds): (items: seq<string>)
    ensures |items| == 4
    ensures forall i :: 0 <= i < 4 ==> |items[i]| > 0 && ',' !in items[i]
  {
    NoComma(b.x);
    NoComma(b.y);
    NoComma(b.width);
    NoComma(b.height);
    [IntToString(b.x), IntToString(b.y), IntToString(b.width), IntToString(b.height)]
  }

  /** The fields of formatted bounds: the first number, then each later one after a space. */
  lemma FormatBoundsFields(b: Bounds, braces: bool)
    ensures BoundsFields(FormatBounds(b, braces)) ==
      [IntToString(b.x), " " + IntToString(b.y), " " + IntToString(b.width), " " + IntToString(b.height)]
  {
    var items := BoundsItems(b);
    FormatBoundsBody(b, braces);
    SplitCommaList(items);
    assert items[1..] == [IntToString(b.y), IntToString(b.width), IntToString(b.height)];
  }

  /** Stripping the braces leaves the `", "`-joined numbers. */
  lemma FormatBoundsBody(b: Bounds, braces: bool)
    ensures Strip(FormatBounds(b, braces), Braces) == Join(", ", BoundsItems(b))
  {
    var items := BoundsItems(b);
    var body := Join(", ", items);
    IntStringEnds(b.x);
    IntStringEnds(b.height);
    JoinEnds(", ", items);
    if braces {
      StripSurrounded("{", body, "}", Braces);
    } else {
      StripSurrounded("", body, "", Braces);
      assert "" + body + "" == body;
    }
  }

  /** Each item with the space that follows a comma in front of it. */
  function Spaced(items: seq<string>): (r: seq<string>)
    ensures |r| == |items| && forall i :: 0 <= i < |items| ==> r[i] == " " + items[i]
    decreases |items|
  {
    if |items| == 0 then [] else [" " + items[0]] + Spaced(items[1..])
  }

  /**
   * Splitting a `", "`-separated list of comma-free items at its commas
   * yields the first item, then each later one led by its space.
   */
  lemma {:induction false} SplitCommaList(items: seq<string>)
    requires |items| > 0 && forall i :: 0 <= i < |items| ==> ',' !in items[i]
    ensures Split(Join(", ", items), ",") == [items[0]] + Spaced(items[1..])
    decreases |items|
  {
    if |items| == 1 {
      SplitWithoutSeparator(items[0], ',');
    } else {
      var tail := items[1..];
      var j := Join(", ", tail);
      SplitCommaList(tail);
      assert items[0] + ", " + j == items[0] + "," + (" " + j);
      SplitFirstPiece(items[0], " " + j, ',');
      SplitSpaceFront(j);
      assert Spaced(items[1..]) == [" " + tail[0]] + Spaced(tail[1..]);
    }
  }

  /** A leading space joins the first piece of a comma split. */
  lemma SplitSpaceFront(s: string)
    ensures Split(" " + s, ",") == [" " + Split(s, ",")[0]] + Split(s, ",")[1..]
  {
    assert (" " + s)[1..] == s;
    assert !StartsWith(" " + s, ",");
  }

  /** A join starts as its first item starts and ends as its last item ends. */
  lemma {:induction false} JoinEnds(sep: string, items: seq<string>)
    requires |items| > 0 && forall i :: 0 <= i < |items| ==> |items[i]| > 0
    ensures var j := Join(sep, items);
      |j| > 0 && j[0] == items[0][0] && j[|j| - 1] == items[|items| - 1][|items[|items| - 1]| - 1]
    decreases |items|
  {
    if |items| > 1 {
      JoinEnds(sep, items[1..]);
    }
  }

  /** `str(i)` starts with a digit or `-` and ends with a digit, so never with a brace. */
  lemma IntStringEnds(i: int)
    ensures var s := IntToString(i);
      |s| > 0 && s[0] !in Braces && s[|s| - 1] !in Braces
  {
    var d := NatToString(if i < 0 then -i else i);
    assert IntToString(i)[|IntToString(i)| - 1] == d[|d| - 1];
  }

  lemma NoComma(i: int)
    ensures ',' !in IntToString(i)
  {
    var d := NatToString(if i < 0 then -i else i);
    assert forall k :: 0 <= k < |d| ==> d[k] != ',';
  }

  // ---------------------------------------------------------------------
  // the set_palette branch

  const PalettePrefix := "palette = "

  /** The line written in place of the old one: `palette = '<name>'` and a line break. */
  function PaletteLine(name: string): string {
    PalettePrefix + "'" + name + "'\n"
  }

  /** The first line that starts with `palette = `, if any. */
  function FirstPaletteLine(lines: seq<string>): (r: Option<nat>)
    ensures r.Some? ==> r.value < |lines| && StartsWith(lines[r.value], PalettePrefix)
    ensures r.Some? ==> forall j :: 0 <= j < r.value ==> !StartsWith(lines[j], PalettePrefix)
    ensures r.None? ==> forall j :: 0 <= j < |lines| ==> !StartsWith(lines[j], PalettePrefix)
    decreases |lines|
  {
    if |lines| == 0 then None
    else if StartsWith(lines[0], PalettePrefix) then Some(0)
    else match FirstPaletteLine(lines[1..])
      case None => None
      case Some(j) => Some(j + 1)
  }

  /** The configuration's lines with the first `palette = ` line set to `name`. */
  function SetPalette(lines: seq<string>, name: string): seq<string> {
    match FirstPaletteLine(lines)
    case None => lines
    case Some(i) => lines[i := PaletteLine(name)]
  }

  /**
   * The loop over `content`: the first line that starts with `palette = `
   * is overwritten in place and the loop stops.
   */
  method RewritePalette(content: array<string>, name: string)
    modifies content
    ensures content[..] == SetPalette(old(content[..]), name)
  {
    var i := 0;
    while i < content.Length
      invariant 0 <= i <= content.Length
      invariant content[..] == old(content[..])
      invariant forall j :: 0 <= j < i ==> !StartsWith(content[j], PalettePrefix)
    {
      if StartsWith(content[i], PalettePrefix) {
        content[i] := PaletteLine(name);
        FirstPaletteLineIs(old(content[..]), i);
        break;
      }
      i := i + 1;
    }
  }

  lemma {:induction false} FirstPaletteLineIs(lines: seq<string>, i: nat)
    requires i < |lines| && StartsWith(lines[i], PalettePrefix)
    requires forall j :: 0 <= j < i ==> !StartsWith(lines[j], PalettePrefix)
    ensures FirstPaletteLine(lines) == Some(i)
    decreases i
  {
    if i > 0 {
      assert !StartsWith(lines[0], PalettePrefix);
      var tail := lines[1..];
      assert forall j :: 0 <= j < i - 1 ==> tail[j] == lines[j + 1];
      FirstPaletteLineIs(tail, i - 1);
    }
  }

  /** The replacement line itself starts with `palette = `. */
  lemma PaletteLineMatches(name: string)
    ensures StartsWith(PaletteLine(name), PalettePrefix)
  {
    assert PaletteLine(name)[..|PalettePrefix|] == PalettePrefix;
  }

  /**
   * The rewrite keeps the number of lines; only the first `palette = ` line
   * changes and becomes the new palette line; with no such line nothing
   * changes.
   */
  lemma SetPaletteSpec(lines: seq<string>, name: string)
    ensures |SetPalette(lines, name)| == |lines|
    ensures forall i :: FirstPaletteLine(lines) == Some(i) ==>
      SetPalette(lines, name)[i] == PaletteLine(name) &&
      forall j :: 0 <= j < |lines| && j != i ==> SetPalette(lines, name)[j] == lines[j]
    ensures (forall j :: 0 <= j < |lines| ==> !StartsWith(lines[j], PalettePrefix)) ==>
      SetPalette(lines, name) == lines
  {
    if forall j :: 0 <= j < |lines| ==> !StartsWith(lines[j], PalettePrefix) {
      assert FirstPaletteLine(lines).None?;
    }
  }

  /** Setting palette `a` and then `b` is setting `b`; setting the same palette twice is setting it once. */
  lemma SetPaletteTwice(lines: seq<string>, a: string, b: string)
    ensures SetPalette(SetPalette(lines, a), b) == SetPalette(lines, b)
    ensures SetPalette(SetPalette(lines, a), a) == SetPalette(lines, a)
  {
    match FirstPaletteLine(lines)
    case None =>
    case Some(i) =>
      var once := lines[i := PaletteLine(a)];
      PaletteLineMatches(a);
      FirstPaletteLineIs(once, i);
      assert once[i := PaletteLine(b)] == lines[i := PaletteLine(b)];
  }
}
