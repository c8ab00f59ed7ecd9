/** The configuration file reader: a character-level state machine that
    turns one line of a TOML-like file into a section header, a
    `key = value` entry or nothing, and a driver that stores the entries
    into a section -> key -> (string | int) map. */
module Config {
  import opened Values

  /** The parsing function the machine is in (`parse_begin` ...
      `parse_end`). */
  datatype Phase = Begin | Key | BeforeEquals | AfterEquals | Text | Number | Section | End

  /** What the line turned out to be (`symbol`). */
  datatype Symbol = SectionName | StringValue | NumberValue | Nothing

  /** `parser_context`: what has been read of the line so far. */
  datatype Context = Context(kind: Symbol, section: string, key: string, value: string)

  /** Why a line is refused. `Unexpected` and `EndOfLine` are the
      `std::string` exceptions the reader reports; `BareChar` is the `char`
      thrown after `=`, and `NoSection` the string literal thrown for an
      entry before any header: neither is caught by the reader. */
  datatype LineError = Unexpected(c: char) | EndOfLine | BareChar(c: char) | NoSection

  /** The result of one parsing function on one character: the next
      function (or none, the `nullptr` that ends the line) or an
      exception. */
  datatype Stepped = Continue(phase: Phase, ctx: Context) | Stop(ctx: Context) | Reject(error: LineError)

  const Blank := Context(Nothing, "", "", "")

  /** The character the C string of `line` holds at `i`: the terminating
      NUL past the end. */
  function CharAt(line: string, i: nat): (c: char)
    ensures i < |line| ==> c == line[i]
  {
    if i < |line| then line[i] else '\0'
  }

  predicate IsDigit(c: char) { '0' <= c <= '9' }

  /** A character that may start or continue a key. */
  predicate KeyChar(c: char)
  {
    c != '\0' && c != '#' && c != ' ' && c != '=' && c != '"' && c != '[' && c != ']'
  }

  /** A character kept verbatim between the brackets of a header. */
  predicate SectionChar(c: char)
  {
    c != '\0' && c != '#' && c != '=' && c != '"' && c != '[' && c != ']'
  }

  /** A character kept verbatim between the quotes of a string value. */
  predicate TextChar(c: char)
  {
    c != '\0' && c != '"'
  }

  /** One call of the current parsing function on the character `c`. */
  function Step(p: Phase, ctx: Context, c: char): (r: Stepped)
    ensures c == '\0' ==> !r.Continue?
  {
    match p
    case Begin =>
      if c == '\0' || c == '#' then Stop(ctx)
      else if c == ' ' then Continue(Begin, ctx)
      else if c == '[' then Continue(Section, ctx.(kind := SectionName))
      else if c == '=' || c == '"' || c == ']' then Reject(Unexpected(c))
      else Continue(Key, ctx.(key := ctx.key + [c]))
    case Key =>
      if c == '\0' then Reject(EndOfLine)
      else if c == ' ' then Continue(BeforeEquals, ctx)
      else if c == '=' then Continue(AfterEquals, ctx)
      else if c == '#' || c == '"' || c == '[' || c == ']' then Reject(Unexpected(c))
      else Continue(Key, ctx.(key := ctx.key + [c]))
    case BeforeEquals =>
      if c == ' ' then Continue(BeforeEquals, ctx)
      else if c == '=' then Continue(AfterEquals, ctx)
      else Reject(Unexpected(c))
    case AfterEquals =>
      if c == ' ' then Continue(AfterEquals, ctx)
      else if c == '"' then Continue(Text, ctx.(kind := StringValue))
      else if IsDigit(c) then Continue(Number, ctx.(kind := NumberValue, value := ctx.value + [c]))
      else Reject(BareChar(c))
    case Text =>
      if c == '\0' then Reject(EndOfLine)
      else if c == '"' then Continue(End, ctx)
      else Continue(Text, ctx.(value := ctx.value + [c]))
    case Number =>
      if c == '\0' || c == '#' then Stop(ctx)
      else if c == ' ' then Continue(End, ctx)
      else if IsDigit(c) then Continue(Number, ctx.(value := ctx.value + [c]))
      else Reject(Unexpected(c))
    case Section =>
      if c == '\0' then Reject(EndOfLine)
      else if c == ']' then Continue(End, ctx)
      else if c == '#' || c == '=' || c == '"' || c == '[' then Reject(Unexpected(c))
      else Continue(Section, ctx.(section := ctx.section + [c]))
    case End =>
      if c == '\0' || c == '#' then Stop(ctx)
      else if c == ' ' then Continue(End, ctx)
      else Reject(Unexpected(c))
  }

  /** Running the machine from phase `p` on the characters of `line` from
      index `i` on. */
  function Scan(p: Phase, ctx: Context, line: string, i: nat): Result<Context, LineError>
    requires i <= |line|
    decreases |line| - i, 1
  {
    Finish(Step(p, ctx, CharAt(line, i)), line, i)
  }

  /** Where the machine goes after the step taken on index `i`. */
  function Finish(s: Stepped, line: string, i: nat): Result<Context, LineError>
    requires i <= |line|
    requires s.Continue? ==> i < |line|
    decreases |line| - i, 0
  {
    match s
    case Continue(p, ctx) => Scan(p, ctx, line, i + 1)
    case Stop(ctx) => Ok(ctx)
    case Reject(e) => Err(e)
  }

  /** `parse_line` up to its `switch`: the `while (parser)` loop. */
  method ParseLine(line: string) returns (r: Result<Context, LineError>)
    ensures r == Scan(Begin, Blank, line, 0)
  {
    var i := 0;
    var next := Step(Begin, Blank, CharAt(line, 0));
    while next.Continue?
      invariant i <= |line| && (next.Continue? ==> i < |line|)
      invariant Finish(next, line, i) == Scan(Begin, Blank, line, 0)
      decreases |line| - i
    {
      i := i + 1;
      next := Step(next.phase, next.ctx, CharAt(line, i));
    }
    r := if next.Stop? then Ok(next.ctx) else Err(next.error);
  }

  /** What may follow a header, a closing quote or a number and a space:
      spaces, then the end of the line or a `#` comment. */
  predicate Trailer(t: string)
  {
    t == [] || t[0] == '\0' || t[0] == '#' || (t[0] == ' ' && Trailer(t[1..]))
  }

  /** The `End` phase accepts exactly the lines whose rest is a trailer. */
  lemma {:induction false} EndAcceptsTrailer(ctx: Context, line: string, i: nat)
    requires i <= |line|
    ensures Scan(End, ctx, line, i).Ok? <==> Trailer(line[i..])
    ensures Scan(End, ctx, line, i).Ok? ==> Scan(End, ctx, line, i).value == ctx
    decreases |line| - i
  {
    if i < |line| && line[i] == ' ' {
      EndAcceptsTrailer(ctx, line, i + 1);
      assert line[i..][1..] == line[i + 1..];
    }
  }

  /** Leading spaces are skipped at the start of a line. */
  lemma {:induction false} SkipSpaces(line: string, i: nat, j: nat)
    requires i <= j <= |line|
    requires forall k | i <= k < j :: line[k] == ' '
    ensures Scan(Begin, Blank, line, i) == Scan(Begin, Blank, line, j)
    decreases j - i
  {
    if i < j {
      SkipSpaces(line, i + 1, j);
    }
  }

  /** An empty line, a line of spaces and a line whose first non-space
      character is `#` yield no entry. */
  lemma BlankOrComment(line: string, j: nat)
    requires j <= |line|
    requires forall k | 0 <= k < j :: line[k] == ' '
    requires j == |line| || line[j] == '#'
    ensures Scan(Begin, Blank, line, 0) == Ok(Blank)
  {
    SkipSpaces(line, 0, j);
  }

  /** Characters read in the `Section` phase are kept verbatim. */
  lemma {:induction false} ReadSection(ctx: Context, line: string, i: nat, j: nat)
    requires i <= j <= |line|
    requires forall k | i <= k < j :: SectionChar(line[k])
    ensures Scan(Section, ctx, line, i)
         == Scan(Section, ctx.(section := ctx.section + line[i..j]), line, j)
    decreases j - i
  {
    if i < j {
      var next := ctx.(section := ctx.section + [line[i]]);
      ReadSection(next, line, i + 1, j);
      assert ctx.section + line[i..j] == next.section + line[i + 1..j];
    } else {
      assert ctx.section + line[i..j] == ctx.section;
    }
  }

  /** `[name]`, after optional spaces and before a trailer, selects section
      `name`, spaces and all. */
  lemma SectionLine(line: string, s: nat, e: nat)
    requires s < e < |line|
    requires forall k | 0 <= k < s :: line[k] == ' '
    requires line[s] == '[' && line[e] == ']'
    requires forall k | s < k < e :: SectionChar(line[k])
    requires Trailer(line[e + 1..])
    ensures Scan(Begin, Blank, line, 0) == Ok(Context(SectionName, line[s + 1..e], "", ""))
  {
    SkipSpaces(line, 0, s);
    var ctx := Blank.(kind := SectionName);
    ReadSection(ctx, line, s + 1, e);
    assert ctx.section + line[s + 1..e] == line[s + 1..e];
    EndAcceptsTrailer(Context(SectionName, line[s + 1..e], "", ""), line, e + 1);
  }

  /** A header whose name reaches a forbidden character, or the end of the
      line, is refused. */
  lemma SectionUnclosed(line: string, s: nat, e: nat)
    requires s < e <= |line|
    requires forall k | 0 <= k < s :: line[k] == ' '
    requires line[s] == '['
    requires forall k | s < k < e :: SectionChar(line[k])
    requires e == |line| || (!SectionChar(line[e]) && line[e] != ']')
    ensures Scan(Begin, Blank, line, 0).Err?
  {
    SkipSpaces(line, 0, s);
    var ctx := Blank.(kind := SectionName);
    ReadSection(ctx, line, s + 1, e);
  }

  /** Characters read in the `Key` phase are kept verbatim. */
  lemma {:induction false} ReadKey(ctx: Context, line: string, i: nat, j: nat)
    requires i <= j <= |line|
    requires forall k | i <= k < j :: KeyChar(line[k])
    ensures Scan(Key, ctx, line, i) == Scan(Key, ctx.(key := ctx.key + line[i..j]), line, j)
    decreases j - i
  {
    if i < j {
      var next := ctx.(key := ctx.key + [line[i]]);
      ReadKey(next, line, i + 1, j);
      assert ctx.key + line[i..j] == next.key + line[i + 1..j];
    } else {
      assert ctx.key + line[i..j] == ctx.key;
    }
  }

  /** Characters read in the `Text` phase are kept verbatim. */
  lemma {:induction false} ReadText(ctx: Context, line: string, i: nat, j: nat)
    requires i <= j <= |line|
    requires forall k | i <= k < j :: TextChar(line[k])
    ensures Scan(Text, ctx, line, i) == Scan(Text, ctx.(value := ctx.value + line[i..j]), line, j)
    decreases j - i
  {
    if i < j {
      var next := ctx.(value := ctx.value + [line[i]]);
      ReadText(next, line, i + 1, j);
      assert ctx.value + line[i..j] == next.value + line[i + 1..j];
    } else {
      assert ctx.value + line[i..j] == ctx.value;
    }
  }

  /** Digits read in the `Number` phase are kept verbatim. */
  lemma {:induction false} ReadDigits(ctx: Context, line: string, i: nat, j: nat)
    requires i <= j <= |line|
    requires forall k | i <= k < j :: IsDigit(line[k])
    ensures Scan(Number, ctx, line, i) == Scan(Number, ctx.(value := ctx.value + line[i..j]), line, j)
    decreases j - i
  {
    if i < j {
      var next := ctx.(value := ctx.value + [line[i]]);
      ReadDigits(next, line, i + 1, j);
      assert ctx.value + line[i..j] == next.value + line[i + 1..j];
    } else {
      assert ctx.value + line[i..j] == ctx.value;
    }
  }

  /** A key cut short by `"`, `[`, `]`, `#` or the end of the line is
      refused. */
  lemma KeyInterrupted(line: string, s: nat, e: nat)
    requires s < e <= |line|
    requires forall k | 0 <= k < s :: line[k] == ' '
    requires forall k | s <= k < e :: KeyChar(line[k])
    requires e == |line| || !(KeyChar(line[e]) || line[e] == ' ' || line[e] == '=')
    ensures Scan(Begin, Blank, line, 0).Err?
  {
    SkipSpaces(line, 0, s);
    var first := Blank.(key := Blank.key + [line[s]]);
    assert Scan(Begin, Blank, line, s) == Scan(Key, first, line, s + 1);
    ReadKey(first, line, s + 1, e);
  }

  /** Between a key and its `=` only spaces may appear. */
  lemma KeyThenJunk(line: string, s: nat, e: nat, j: nat)
    requires s < e < j <= |line|
    requires forall k | 0 <= k < s :: line[k] == ' '
    requires forall k | s <= k < e :: KeyChar(line[k])
    requires forall k | e <= k < j :: line[k] == ' '
    requires j == |line| || (line[j] != ' ' && line[j] != '=')
    ensures Scan(Begin, Blank, line, 0).Err?
  {
    SkipSpaces(line, 0, s);
    var first := Blank.(key := Blank.key + [line[s]]);
    assert Scan(Begin, Blank, line, s) == Scan(Key, first, line, s + 1);
    ReadKey(first, line, s + 1, e);
    var ctx := Blank.(key := first.key + line[s + 1..e]);
    SkipBeforeSpaces(ctx, line, e + 1, j);
  }

  lemma {:induction false} SkipBeforeSpaces(ctx: Context, line: string, i: nat, j: nat)
    requires i <= j <= |line|
    requires forall k | i <= k < j :: line[k] == ' '
    ensures Scan(BeforeEquals, ctx, line, i) == Scan(BeforeEquals, ctx, line, j)
    decreases j - i
  {
    if i < j {
      SkipBeforeSpaces(ctx, line, i + 1, j);
    }
  }

  /** Only spaces may sit between a key and its `=`. */
  lemma {:induction false} SkipBeforeEquals(ctx: Context, line: string, i: nat, q: nat)
    requires i <= q < |line|
    requires forall k | i <= k < q :: line[k] == ' '
    requires line[q] == '='
    ensures Scan(BeforeEquals, ctx, line, i) == Scan(AfterEquals, ctx, line, q + 1)
    decreases q - i
  {
    if i < q {
      SkipBeforeEquals(ctx, line, i + 1, q);
    }
  }

  lemma {:induction false} SkipAfterEquals(ctx: Context, line: string, i: nat, v: nat)
    requires i <= v <= |line|
    requires forall k | i <= k < v :: line[k] == ' '
    ensures Scan(AfterEquals, ctx, line, i) == Scan(AfterEquals, ctx, line, v)
    decreases v - i
  {
    if i < v {
      SkipAfterEquals(ctx, line, i + 1, v);
    }
  }

  /** The left-hand side of `key = value`: optional spaces, a non-empty
      key, optional spaces, `=`, optional spaces. */
  predicate Assignment(line: string, s: nat, e: nat, q: nat, v: nat)
  {
    s < e <= q < v <= |line|
    && (forall k | 0 <= k < s :: line[k] == ' ')
    && (forall k | s <= k < e :: KeyChar(line[k]))
    && (forall k | e <= k < q :: line[k] == ' ')
    && line[q] == '='
    && (forall k | q < k < v :: line[k] == ' ')
  }

  /** After the left-hand side of an assignment the machine holds the key
      and waits for the value. */
  lemma ReadAssignment(line: string, s: nat, e: nat, q: nat, v: nat)
    requires Assignment(line, s, e, q, v)
    ensures Scan(Begin, Blank, line, 0) == Scan(AfterEquals, Blank.(key := line[s..e]), line, v)
  {
    SkipSpaces(line, 0, s);
    var first := Blank.(key := Blank.key + [line[s]]);
    assert Scan(Begin, Blank, line, s) == Scan(Key, first, line, s + 1);
    ReadKey(first, line, s + 1, e);
    assert first.key + line[s + 1..e] == line[s..e];
    var ctx := Blank.(key := line[s..e]);
    if e < q {
      assert line[e] == ' ';
      assert Scan(Key, ctx, line, e) == Scan(BeforeEquals, ctx, line, e + 1);
      SkipBeforeEquals(ctx, line, e + 1, q);
    } else {
      assert Scan(Key, ctx, line, e) == Scan(AfterEquals, ctx, line, q + 1);
    }
    SkipAfterEquals(ctx, line, q + 1, v);
  }

  /** `key = "text"` stores `text` verbatim, spaces and `#` included. */
  lemma StringLine(line: string, s: nat, e: nat, q: nat, v: nat, w: nat)
    requires Assignment(line, s, e, q, v)
    requires v < w < |line| && line[v] == '"' && line[w] == '"'
    requires forall k | v < k < w :: TextChar(line[k])
    requires Trailer(line[w + 1..])
    ensures Scan(Begin, Blank, line, 0)
         == Ok(Context(StringValue, "", line[s..e], line[v + 1..w]))
  {
    ReadAssignment(line, s, e, q, v);
    var ctx := Context(StringValue, "", line[s..e], "");
    ReadText(ctx, line, v + 1, w);
    assert ctx.value + line[v + 1..w] == line[v + 1..w];
    EndAcceptsTrailer(ctx.(value := line[v + 1..w]), line, w + 1);
  }

  /** A string value that is never closed is refused. */
  lemma UnterminatedString(line: string, s: nat, e: nat, q: nat, v: nat)
    requires Assignment(line, s, e, q, v)
    requires v < |line| && line[v] == '"'
    requires forall k | v < k < |line| :: TextChar(line[k])
    ensures Scan(Begin, Blank, line, 0) == Err(EndOfLine)
  {
    ReadAssignment(line, s, e, q, v);
    var ctx := Context(StringValue, "", line[s..e], "");
    ReadText(ctx, line, v + 1, |line|);
  }

  /** `key = digits` stores the digits when a space, a `#` or the end of
      the line follows them. */
  lemma NumberLine(line: string, s: nat, e: nat, q: nat, v: nat, w: nat)
    requires Assignment(line, s, e, q, v)
    requires v < w <= |line|
    requires forall k | v <= k < w :: IsDigit(line[k])
    requires w == |line| || line[w] == '#' || (line[w] == ' ' && Trailer(line[w + 1..]))
    ensures Scan(Begin, Blank, line, 0)
         == Ok(Context(NumberValue, "", line[s..e], line[v..w]))
  {
    ReadAssignment(line, s, e, q, v);
    var ctx := Context(NumberValue, "", line[s..e], Blank.value + [line[v]]);
    ReadDigits(ctx, line, v + 1, w);
    assert ctx.value + line[v + 1..w] == line[v..w];
    if w < |line| && line[w] == ' ' {
      EndAcceptsTrailer(ctx.(value := line[v..w]), line, w + 1);
    }
  }

  /** Any other character right after the digits is refused. */
  lemma NumberThenJunk(line: string, s: nat, e: nat, q: nat, v: nat, w: nat)
    requires Assignment(line, s, e, q, v)
    requires v < w < |line|
    requires forall k | v <= k < w :: IsDigit(line[k])
    requires line[w] != '\0' && line[w] != '#' && line[w] != ' ' && !IsDigit(line[w])
    ensures Scan(Begin, Blank, line, 0) == Err(Unexpected(line[w]))
  {
    ReadAssignment(line, s, e, q, v);
    var ctx := Context(NumberValue, "", line[s..e], Blank.value + [line[v]]);
    ReadDigits(ctx, line, v + 1, w);
  }
}

/** The reader around the line machine: each accepted line selects a
    section or stores an entry in the current one. */
module ConfigFile {
  import opened Values
  import opened Config

  /** `toml_file::value_t`. */
  datatype Setting = Str(text: string) | Int(number: int)

  type Sections = map<string, map<string, Setting>>

  /** What the reader keeps between lines: the sections so far and the
      section that entries go to (`section_ptr`, null before the first
      header). */
  datatype Reader = Reader(sections: Sections, current: Option<string>)

  /** `section_ptr` always points into `sections`. */
  predicate Valid(r: Reader)
  {
    r.current.Some? ==> r.current.value in r.sections
  }

  /** The machine's state before each character, as far as the context
      it has filled so far goes. */
  predicate Filled(p: Phase, ctx: Context)
  {
    match p
    case Begin => ctx == Blank
    case Key | BeforeEquals | AfterEquals =>
      ctx.kind == Nothing && ctx.section == "" && IsKey(ctx.key) && ctx.value == ""
    case Text =>
      ctx.kind == StringValue && ctx.section == "" && IsKey(ctx.key) && IsText(ctx.value)
    case Number =>
      ctx.kind == NumberValue && ctx.section == "" && IsKey(ctx.key) && IsDigits(ctx.value)
    case Section =>
      ctx.kind == SectionName && IsSectionName(ctx.section) && ctx.key == "" && ctx.value == ""
    case End => Entry(ctx) && ctx.kind != Nothing
  }

  predicate IsKey(s: string) { |s| > 0 && forall i | 0 <= i < |s| :: KeyChar(s[i]) }
  predicate IsText(s: string) { forall i | 0 <= i < |s| :: TextChar(s[i]) }
  predicate IsDigits(s: string) { |s| > 0 && forall i | 0 <= i < |s| :: IsDigit(s[i]) }
  predicate IsSectionName(s: string) { forall i | 0 <= i < |s| :: SectionChar(s[i]) }

  /** What an accepted line can hold: nothing, a header name, or a key with
      a string or a number. */
  predicate Entry(ctx: Context)
  {
    match ctx.kind
    case Nothing => ctx == Blank
    case SectionName => IsSectionName(ctx.section) && ctx.key == "" && ctx.value == ""
    case StringValue => ctx.section == "" && IsKey(ctx.key) && IsText(ctx.value)
    case NumberValue => ctx.section == "" && IsKey(ctx.key) && IsDigits(ctx.value)
  }

  /** One step keeps the machine's context well formed. */
  lemma StepFills(p: Phase, ctx: Context, c: char)
    requires Filled(p, ctx)
    ensures Step(p, ctx, c).Continue? ==> Filled(Step(p, ctx, c).phase, Step(p, ctx, c).ctx)
    ensures Step(p, ctx, c).Stop? ==> Entry(Step(p, ctx, c).ctx)
  {
    var r := Step(p, ctx, c);
    if r.Continue? {
      var n := r.ctx;
      if p == Begin && r.phase == Key {
        assert n.key == [c];
      } else if r.phase == Key {
        assert n.key == ctx.key + [c];
        assert forall i | 0 <= i < |n.key| :: KeyChar(n.key[i]) by {
          forall i | 0 <= i < |n.key| ensures KeyChar(n.key[i]) {
            if i < |ctx.key| { assert n.key[i] == ctx.key[i]; }
          }
        }
      } else if r.phase == Text && p == Text {
        assert n.value == ctx.value + [c];
        assert forall i | 0 <= i < |n.value| :: TextChar(n.value[i]) by {
          forall i | 0 <= i < |n.value| ensures TextChar(n.value[i]) {
            if i < |ctx.value| { assert n.value[i] == ctx.value[i]; }
          }
        }
      } else if r.phase == Number {
        assert n.value == ctx.value + [c];
        assert forall i | 0 <= i < |n.value| :: IsDigit(n.value[i]) by {
          forall i | 0 <= i < |n.value| ensures IsDigit(n.value[i]) {
            if i < |ctx.value| { assert n.value[i] == ctx.value[i]; }
          }
        }
      } else if r.phase == Section && p == Section {
        assert n.section == ctx.section + [c];
        assert forall i | 0 <= i < |n.section| :: SectionChar(n.section[i]) by {
          forall i | 0 <= i < |n.section| ensures SectionChar(n.section[i]) {
            if i < |ctx.section| { assert n.section[i] == ctx.section[i]; }
          }
        }
      }
    }
  }

  /** Whatever line the machine accepts, what it read is well formed: the
      converse of the line-shape lemmas of `Config`. */
  lemma {:induction false} ScanFills(p: Phase, ctx: Context, line: string, i: nat)
    requires i <= |line| && Filled(p, ctx)
    ensures Scan(p, ctx, line, i).Ok? ==> Entry(Scan(p, ctx, line, i).value)
    decreases |line| - i
  {
    StepFills(p, ctx, CharAt(line, i));
    var r := Step(p, ctx, CharAt(line, i));
    if r.Continue? {
      ScanFills(r.phase, r.ctx, line, i + 1);
    }
  }

  /** `std::stoi` on a string of decimal digits. */
  function DecimalValue(s: string): (n: nat)
    requires IsDigits(s) || s == ""
  {
    if s == [] then 0
    else 10 * DecimalValue(s[..|s| - 1]) + (s[|s| - 1] as int - '0' as int)
  }

  /** The `switch` at the end of `parse_line`: what an accepted line does
      to the reader. */
  function Apply(rd: Reader, ctx: Context): (r: Result<Reader, LineError>)
    requires Entry(ctx)
    ensures Valid(rd) && r.Ok? ==> Valid(r.value)
  {
    match ctx.kind
    case Nothing => Ok(rd)
    case SectionName =>
      var table := if ctx.section in rd.sections then rd.sections[ctx.section] else map[];
      Ok(Reader(rd.sections[ctx.section := table], Some(ctx.section)))
    case _ =>
      if rd.current.None? then Err(NoSection)
      else
        var name := rd.current.value;
        var table := if name in rd.sections then rd.sections[name] else map[];
        Ok(Reader(rd.sections[name := table[ctx.key := Stored(ctx)]], rd.current))
  }

  /** A blank line changes nothing; a header selects its section, creating
      it empty only when it is new; a key line fails before any header and
      otherwise sets the key in the current section alone. */
  lemma ApplyEffect(rd: Reader, ctx: Context)
    requires Entry(ctx) && Valid(rd)
    ensures ctx.kind == Nothing ==> Apply(rd, ctx) == Ok(rd)
    ensures ctx.kind == SectionName ==>
      var r := Apply(rd, ctx);
      r.Ok? && r.value.current == Some(ctx.section)
      && r.value.sections.Keys == rd.sections.Keys + {ctx.section}
      && (forall name | name in rd.sections :: r.value.sections[name] == rd.sections[name])
      && (ctx.section !in rd.sections ==> r.value.sections[ctx.section] == map[])
    ensures (ctx.kind == StringValue || ctx.kind == NumberValue) ==>
      var r := Apply(rd, ctx);
      (r.Err? <==> rd.current.None?)
      && (r.Err? ==> r.error == NoSection)
      && (r.Ok? ==>
            var name := rd.current.value;
            r.value.current == rd.current
            && r.value.sections.Keys == rd.sections.Keys
            && r.value.sections[name] == rd.sections[name][ctx.key := Stored(ctx)]
            && (forall other | other in rd.sections && other != name ::
                  r.value.sections[other] == rd.sections[other]))
  {
  }

  /** Assigning a key twice keeps the second value. */
  lemma LastAssignmentWins(rd: Reader, first: Context, second: Context)
    requires Valid(rd) && rd.current.Some? && Entry(first) && Entry(second)
    requires first.kind in {StringValue, NumberValue} && second.kind in {StringValue, NumberValue}
    requires first.key == second.key
    ensures Apply(rd, first).Ok?
    ensures Apply(Apply(rd, first).value, second).Ok?
    ensures Apply(Apply(rd, first).value, second).value.sections[rd.current.value][first.key] == Stored(second)
  {
    ApplyEffect(rd, first);
    ApplyEffect(Apply(rd, first).value, second);
  }

  /** A header seen again selects the same section, entries kept. */
  lemma RepeatedHeader(rd: Reader, ctx: Context)
    requires Valid(rd) && Entry(ctx) && ctx.kind == SectionName && ctx.section in rd.sections
    ensures Apply(rd, ctx) == Ok(Reader(rd.sections, Some(ctx.section)))
  {
    ApplyEffect(rd, ctx);
    assert Apply(rd, ctx).value.sections == rd.sections;
  }

  /** The setting a key line stores: its text, or `std::stoi` of its
      digits. */
  function Stored(ctx: Context): Setting
    requires Entry(ctx) && (ctx.kind == StringValue || ctx.kind == NumberValue)
  {
    if ctx.kind == NumberValue then Int(DecimalValue(ctx.value)) else Str(ctx.value)
  }

  /** How far the reader gets on `lines[i..]`: the sections, or the
      (1-based) number of the first refused line and why. */
  function LoadFrom(rd: Reader, lines: seq<string>, i: nat): Result<Sections, (nat, LineError)>
    requires i <= |lines| && Valid(rd)
    decreases |lines| - i
  {
    if i == |lines| then Ok(rd.sections)
    else
      var line := lines[i];
      ScanFills(Begin, Blank, line, 0);
      match Scan(Begin, Blank, line, 0)
      case Err(e) => Err((i + 1, e))
      case Ok(ctx) =>
        match Apply(rd, ctx)
        case Err(e) => Err((i + 1, e))
        case Ok(next) => LoadFrom(next, lines, i + 1)
  }

  /** The constructor of `toml_file`, given the lines of the file: parse
      each line in order and stop at the first one refused. */
  method Load(lines: seq<string>) returns (r: Result<Sections, (nat, LineError)>)
    ensures r == LoadFrom(Reader(map[], None), lines, 0)
  {
    var rd := Reader(map[], None);
    var i := 0;
    while i < |lines|
      invariant i <= |lines| && Valid(rd)
      invariant LoadFrom(rd, lines, i) == LoadFrom(Reader(map[], None), lines, 0)
    {
      var parsed := ParseLine(lines[i]);
      ScanFills(Begin, Blank, lines[i], 0);
      if parsed.Err? {
        return Err((i + 1, parsed.error));
      }
      var applied := Apply(rd, parsed.value);
      if applied.Err? {
        return Err((i + 1, applied.error));
      }
      rd := applied.value;
      i := i + 1;
    }
    r := Ok(rd.sections);
  }

  /** The lines of the configuration file the program writes when none
      exists. */
  const DefaultLines: seq<string> := [
    "",
    "# Nabu configuration file.",
    "",
    "[server]",
    "ip   = \"127.0.0.1\"",
    "port = 43210",
    "",
    "[logger]",
    "verbosity = \"debug\"",
    "output    = \"console\"" + " # \"console\" redirects on std::cout."
  ]

  /** A `key = value` line before any header stops the reader at that
      line, whatever lines from `k` on precede it. */
  lemma {:induction false} EntryBeforeHeader(lines: seq<string>, k: nat, i: nat)
    requires k <= i < |lines|
    requires forall j | k <= j < i :: Scan(Begin, Blank, lines[j], 0) == Ok(Blank)
    requires Scan(Begin, Blank, lines[i], 0).Ok?
    requires Scan(Begin, Blank, lines[i], 0).value.kind in {StringValue, NumberValue}
    ensures LoadFrom(Reader(map[], None), lines, k) == Err((i + 1, NoSection))
    decreases i - k
  {
    ScanFills(Begin, Blank, lines[k], 0);
    if k < i {
      EntryBeforeHeader(lines, k + 1, i);
    }
  }

  /** One accepted line, in the middle of a file. */
  lemma LoadStep(rd: Reader, lines: seq<string>, i: nat, ctx: Context)
    requires i < |lines| && Valid(rd)
    requires Scan(Begin, Blank, lines[i], 0) == Ok(ctx)
    ensures Entry(ctx)
    ensures Apply(rd, ctx).Ok? ==> LoadFrom(rd, lines, i) == LoadFrom(Apply(rd, ctx).value, lines, i + 1)
  {
    ScanFills(Begin, Blank, lines[i], 0);
  }

  // The lines of the default file one by one. Each takes its text as a
  // parameter so that the verifier reasons about it through the shape
  // lemmas above rather than by unfolding `Scan` on a literal.

  /** A header `[name]` alone on its line selects section `name`. */
  lemma HeaderLine(line: string, name: string)
    requires line == "[" + name + "]"
    requires forall k | 0 <= k < |name| :: SectionChar(name[k])
    ensures Scan(Begin, Blank, line, 0) == Ok(Context(SectionName, name, "", ""))
  {
    forall k | 0 < k < |name| + 1
      ensures SectionChar(line[k])
    {
      assert line[k] == name[k - 1];
    }
    assert line[|name| + 2..] == [];
    SectionLine(line, 0, |name| + 1);
    assert line[1..|name| + 1] == name;
  }

  lemma IpLine(line: string)
    requires line == "ip   = \"127.0.0.1\""
    ensures Scan(Begin, Blank, line, 0) == Ok(Context(StringValue, "", "ip", "127.0.0.1"))
  {
    assert line[18..] == [];
    StringLine(line, 0, 2, 5, 7, 17);
    assert line[0..2] == "ip" && line[8..17] == "127.0.0.1";
  }

  lemma PortLine(line: string)
    requires line == "port = 43210"
    ensures Scan(Begin, Blank, line, 0) == Ok(Context(NumberValue, "", "port", "43210"))
  {
    NumberLine(line, 0, 4, 5, 7, 12);
    assert line[0..4] == "port" && line[7..12] == "43210";
  }

  lemma VerbosityLine(line: string)
    requires line == "verbosity = \"debug\""
    ensures Scan(Begin, Blank, line, 0) == Ok(Context(StringValue, "", "verbosity", "debug"))
  {
    assert line[19..] == [];
    StringLine(line, 0, 9, 10, 12, 18);
    assert line[0..9] == "verbosity" && line[13..18] == "debug";
  }

  /** The last line, whose comment follows the value. */
  lemma OutputLine(line: string, head: string, comment: string)
    requires head == "output    = \"console\""
    requires comment == " # \"console\" redirects on std::cout."
    requires line == head + comment
    ensures Scan(Begin, Blank, line, 0) == Ok(Context(StringValue, "", "output", "console"))
  {
    assert comment == [' ', '#'] + comment[2..];
    assert Trailer(comment);
    OutputHead(line, head, comment);
    StringLine(line, 0, 6, 10, 12, 20);
  }

  lemma OutputHead(line: string, head: string, comment: string)
    requires head == "output    = \"console\""
    requires line == head + comment
    ensures Assignment(line, 0, 6, 10, 12)
    ensures line[12] == '"' && line[20] == '"' && (forall k | 12 < k < 20 :: TextChar(line[k]))
    ensures line[21..] == comment && line[0..6] == "output" && line[13..20] == "console"
  {
    assert forall k | 0 <= k < 21 :: line[k] == head[k];
    assert Assignment(head, 0, 6, 10, 12);
    assert line[0..6] == head[0..6] == "output";
    assert line[13..20] == head[13..20] == "console";
  }

  /** `std::stoi("43210")`. */
  lemma PortNumber(digits: string)
    requires digits == "43210"
    ensures IsDigits(digits) && DecimalValue(digits) == 43210
  {
    assert digits[..4] == "4321" && "4321"[..3] == "432" && "432"[..2] == "43" && "43"[..1] == "4";
    assert "4"[..0] == "";
  }

  const Server := map["ip" := Str("127.0.0.1"), "port" := Int(43210)]
  const Logger := map["verbosity" := Str("debug"), "output" := Str("console")]

  /** The blank lines, the comment and the `[server]` header. */
  lemma DefaultPreamble(ls: seq<string>)
    requires ls == DefaultLines
    ensures LoadFrom(Reader(map[], None), ls, 0)
         == LoadFrom(Reader(map["server" := map[]], Some("server")), ls, 4)
  {
    BlankOrComment(ls[0], 0);
    BlankOrComment(ls[1], 0);
    BlankOrComment(ls[2], 0);
    HeaderLine(ls[3], "server");
    var r0 := Reader(map[], None);
    LoadStep(r0, ls, 0, Blank);
    LoadStep(r0, ls, 1, Blank);
    LoadStep(r0, ls, 2, Blank);
    LoadStep(r0, ls, 3, Context(SectionName, "server", "", ""));
    assert Apply(r0, Context(SectionName, "server", "", "")) == Ok(Reader(map["server" := map[]], Some("server")));
  }

  lemma DefaultIp(ls: seq<string>)
    requires ls == DefaultLines
    ensures LoadFrom(Reader(map["server" := map[]], Some("server")), ls, 4)
         == LoadFrom(Reader(map["server" := map["ip" := Str("127.0.0.1")]], Some("server")), ls, 5)
  {
    IpLine(ls[4]);
    var ctx := Context(StringValue, "", "ip", "127.0.0.1");
    var rd := Reader(map["server" := map[]], Some("server"));
    LoadStep(rd, ls, 4, ctx);
    assert Stored(ctx) == Str("127.0.0.1");
    assert rd.sections["server"] == map[];
    assert rd.sections["server"]["ip" := Stored(ctx)] == map["ip" := Str("127.0.0.1")];
    assert rd.sections["server" := map["ip" := Str("127.0.0.1")]] == map["server" := map["ip" := Str("127.0.0.1")]];
  }

  lemma DefaultPort(ls: seq<string>)
    requires ls == DefaultLines
    ensures LoadFrom(Reader(map["server" := map["ip" := Str("127.0.0.1")]], Some("server")), ls, 5)
         == LoadFrom(Reader(map["server" := Server], Some("server")), ls, 6)
  {
    PortLine(ls[5]);
    var ctx := Context(NumberValue, "", "port", "43210");
    PortNumber(ctx.value);
    var rd := Reader(map["server" := map["ip" := Str("127.0.0.1")]], Some("server"));
    LoadStep(rd, ls, 5, ctx);
    assert Stored(ctx) == Int(43210);
    assert rd.sections["server"]["port" := Stored(ctx)] == Server;
    assert rd.sections["server" := Server] == map["server" := Server];
  }

  /** The blank line and the `[logger]` header. */
  lemma DefaultLoggerHeader(ls: seq<string>)
    requires ls == DefaultLines
    ensures LoadFrom(Reader(map["server" := Server], Some("server")), ls, 6)
         == LoadFrom(Reader(map["server" := Server, "logger" := map[]], Some("logger")), ls, 8)
  {
    BlankOrComment(ls[6], 0);
    HeaderLine(ls[7], "logger");
    var rd := Reader(map["server" := Server], Some("server"));
    LoadStep(rd, ls, 6, Blank);
    LoadStep(rd, ls, 7, Context(SectionName, "logger", "", ""));
    assert "logger" !in rd.sections;
    assert rd.sections["logger" := map[]] == map["server" := Server, "logger" := map[]];
  }

  lemma DefaultVerbosity(ls: seq<string>)
    requires ls == DefaultLines
    ensures LoadFrom(Reader(map["server" := Server, "logger" := map[]], Some("logger")), ls, 8)
         == LoadFrom(Reader(map["server" := Server, "logger" := map["verbosity" := Str("debug")]], Some("logger")), ls, 9)
  {
    VerbosityLine(ls[8]);
    var ctx := Context(StringValue, "", "verbosity", "debug");
    var rd := Reader(map["server" := Server, "logger" := map[]], Some("logger"));
    LoadStep(rd, ls, 8, ctx);
    assert Stored(ctx) == Str("debug");
    assert rd.sections["logger"]["verbosity" := Stored(ctx)] == map["verbosity" := Str("debug")];
    assert rd.sections["logger" := map["verbosity" := Str("debug")]]
        == map["server" := Server, "logger" := map["verbosity" := Str("debug")]];
  }

  lemma DefaultOutput(ls: seq<string>)
    requires ls == DefaultLines
    ensures LoadFrom(Reader(map["server" := Server, "logger" := map["verbosity" := Str("debug")]], Some("logger")), ls, 9)
         == Ok(map["server" := Server, "logger" := Logger])
  {
    OutputLine(ls[9], "output    = \"console\"", " # \"console\" redirects on std::cout.");
    var ctx := Context(StringValue, "", "output", "console");
    var rd := Reader(map["server" := Server, "logger" := map["verbosity" := Str("debug")]], Some("logger"));
    LoadStep(rd, ls, 9, ctx);
    assert Stored(ctx) == Str("console");
    assert rd.sections["logger"]["output" := Stored(ctx)] == Logger;
    assert rd.sections["logger" := Logger] == map["server" := Server, "logger" := Logger];
  }

  /** The default file yields the server address and port and the logger
      settings, and its trailing comment is accepted. */
  lemma DefaultConfig()
    ensures LoadFrom(Reader(map[], None), DefaultLines, 0)
         == Ok(map[
              "server" := map["ip" := Str("127.0.0.1"), "port" := Int(43210)],
              "logger" := map["verbosity" := Str("debug"), "output" := Str("console")]])
  {
    DefaultPreamble(DefaultLines);
    DefaultIp(DefaultLines);
    DefaultPort(DefaultLines);
    DefaultLoggerHeader(DefaultLines);
    DefaultVerbosity(DefaultLines);
    DefaultOutput(DefaultLines);
  }
}
