/** Cutting a type specification into its parts: bracket counting, commas and spaces. */
module SpecText {
  import opened Outcomes
  import opened Slicing

  /** `s[lo:-1]` */
  function DropLast(s: string, lo: nat): (r: string)
    ensures |s| > 0 ==> |r| < |s|
  {
    Slice(s, lo, if s == "" then 0 else |s| - 1)
  }

  /** The characters `str.strip()` removes, as ranges of code points. */
  const SPACES: seq<(int, int)> :=
    [(32, 32), (9, 13), (28, 31), (0x85, 0x85), (0xa0, 0xa0), (0x1680, 0x1680), (0x2000, 0x200a),
     (0x2028, 0x2029), (0x202f, 0x202f), (0x205f, 0x205f), (0x3000, 0x3000)]

  predicate IsSpace(c: char)
  {
    exists k :: 0 <= k < |SPACES| && SPACES[k].0 <= c as int <= SPACES[k].1
  }

  predicate Trimmed(s: string)
  {
    s != "" && !IsSpace(s[0]) && !IsSpace(s[|s| - 1])
  }

  function Strip(s: string): (r: string)
    ensures |r| <= |s|
    ensures r == "" || Trimmed(r)
    decreases |s|
  {
    if s == "" then ""
    else if IsSpace(s[0]) then Strip(s[1..])
    else if IsSpace(s[|s| - 1]) then Strip(s[..|s| - 1])
    else s
  }

  // ----- the loops -----

  function Turn(ch: char): int
  {
    if ch == '(' then 1 else if ch == ')' then -1 else 0
  }

  /** Where the bracket loop of get_inner_spec stops: on the first character after which no bracket is
      open, or on the last one. */
  function CloseAt(spec: string, i: nat, brackets: int): (r: nat)
    requires i < |spec|
    ensures i <= r < |spec|
    decreases |spec| - i
  {
    var b := brackets + Turn(spec[i]);
    if b == 0 || i == |spec| - 1 then i else CloseAt(spec, i + 1, b)
  }

  /** get_inner_spec, given the length of the column name. Nothing after the name leaves the loop
      variable unbound. */
  function InnerSpec(offset: nat, spec: string): (r: Option<string>)
    ensures r.Some? ==> |r.value| + offset + 1 <= |spec|
  {
    if offset >= |spec| then None else Some(Slice(spec, offset + 1, CloseAt(spec, offset, 0)))
  }

  /** get_inner_columns as a machine over the characters: the text since the last comma or space outside
      brackets, and the parts found. */
  datatype Parts = Parts(brackets: int, part: string, found: seq<string>)

  function NextPart(s: Parts, ch: char): Parts
  {
    if ch == ',' && s.brackets == 0 then Parts(0, "", s.found + [s.part])
    else if ch == ' ' && s.brackets == 0 then s.(part := "")
    else s.(brackets := s.brackets + Turn(ch), part := s.part + [ch])
  }

  function RunParts(s: Parts, text: string): Parts
    decreases text
  {
    if text == "" then s else RunParts(NextPart(s, text[0]), text[1..])
  }

  /** get_inner_columns_with_types as a machine: the text since the last comma, the text between that comma
      and the last space, the text since that space, and the (name, type) pairs found. A comma does not
      restart the text since the space. */
  datatype Typed = Typed(brackets: int, since: string, name: string, last: string, found: seq<(string, string)>)

  function NextTyped(s: Typed, ch: char): Typed
  {
    if ch == ',' && s.brackets == 0 then Typed(0, "", "", s.last + ",", s.found + [(Strip(s.name), s.last)])
    else if ch == ' ' && s.brackets == 0 then s.(since := s.since + " ", name := s.since + " ", last := "")
    else s.(brackets := s.brackets + Turn(ch), since := s.since + [ch], last := s.last + [ch])
  }

  function RunTyped(s: Typed, text: string): Typed
    decreases text
  {
    if text == "" then s else RunTyped(NextTyped(s, text[0]), text[1..])
  }

  /** Both loops run over the text and one more comma. */
  function PartsOf(text: string): seq<string>
  {
    RunParts(Parts(0, "", []), text + ",").found
  }

  function TypesOf(text: string): seq<(string, string)>
  {
    RunTyped(Typed(0, "", "", "", []), text + ",").found
  }

  predicate AllBelow(found: seq<string>, n: nat)
  {
    forall k :: 0 <= k < |found| ==> |found[k]| < n
  }

  predicate TypesBelow(found: seq<(string, string)>, n: nat)
  {
    forall k :: 0 <= k < |found| ==> |found[k].1| < n
  }

  lemma {:induction false} PartsBound(s: Parts, text: string, n: nat)
    requires |s.part| + |text| <= n && AllBelow(s.found, n)
    ensures AllBelow(RunParts(s, text).found, n)
    decreases text
  {
    if text != "" {
      PartsBound(NextPart(s, text[0]), text[1..], n);
    }
  }

  lemma {:induction false} TypesBound(s: Typed, text: string, n: nat)
    requires |s.last| + |text| <= n && TypesBelow(s.found, n)
    ensures TypesBelow(RunTyped(s, text).found, n)
    decreases text
  {
    if text != "" {
      TypesBound(NextTyped(s, text[0]), text[1..], n);
    }
  }

  /** get_inner_columns */
  function InnerColumns(offset: nat, spec: string): (r: Option<seq<string>>)
    ensures r.Some? ==> AllBelow(r.value, |spec|)
  {
    var inner :- InnerSpec(offset, spec);
    PartsBound(Parts(0, "", []), inner + ",", |inner| + 1);
    Some(PartsOf(inner))
  }

  /** get_inner_columns_with_types */
  function InnerTypes(offset: nat, spec: string): (r: Option<seq<(string, string)>>)
    ensures r.Some? ==> TypesBelow(r.value, |spec|)
  {
    var inner :- InnerSpec(offset, spec);
    var text := Strip(inner);
    TypesBound(Typed(0, "", "", "", []), text + ",", |text| + 1);
    Some(TypesOf(text))
  }

  method GetInnerSpec(columnName: string, spec: string) returns (r: Option<string>)
    ensures r == InnerSpec(|columnName|, spec)
  {
    var brackets, offset := 0, |columnName|;
    if offset >= |spec| {
      return None;
    }
    var i := offset;
    while true
      invariant offset <= i < |spec|
      invariant CloseAt(spec, i, brackets) == CloseAt(spec, offset, 0)
      decreases |spec| - i
    {
      if spec[i] == '(' {
        brackets := brackets + 1;
      } else if spec[i] == ')' {
        brackets := brackets - 1;
      }
      if brackets == 0 || i == |spec| - 1 {
        break;
      }
      i := i + 1;
    }
    r := Some(Slice(spec, offset + 1, i));
  }

  method GetInnerColumns(columnName: string, spec: string) returns (r: Option<seq<string>>)
    ensures r == InnerColumns(|columnName|, spec)
  {
    var inner :- GetInnerSpec(columnName, spec);
    var columns := CutParts(inner, inner + ",");
    r := Some(columns);
  }

  method CutParts(innerSpec: string, text: string) returns (columns: seq<string>)
    requires text == innerSpec + ","
    ensures columns == PartsOf(innerSpec)
  {
    var brackets, columnBegin := 0, 0;
    columns := [];
    ghost var s := Parts(0, "", []);
    assert text[0..] == text;
    for i := 0 to |text|
      invariant columnBegin <= i
      invariant s == Parts(brackets, text[columnBegin..i], columns)
      invariant RunParts(s, text[i..]) == RunParts(Parts(0, "", []), text)
    {
      var x := text[i];
      assert text[i..][1..] == text[i + 1..];
      assert text[columnBegin..i + 1] == text[columnBegin..i] + [x];
      s := NextPart(s, x);
      if x == ',' {
        if brackets == 0 {
          SliceBelow(innerSpec, text, columnBegin, i);
          columns := columns + [Slice(innerSpec, columnBegin, i)];
          columnBegin := i + 1;
        }
      } else if x == '(' {
        brackets := brackets + 1;
      } else if x == ')' {
        brackets := brackets - 1;
      } else if x == ' ' {
        if brackets == 0 {
          columnBegin := i + 1;
        }
      }
    }
  }

  lemma SliceBelow(innerSpec: string, text: string, lo: nat, hi: nat)
    requires text == innerSpec + "," && lo <= hi < |text|
    ensures Slice(innerSpec, lo, hi) == text[lo..hi]
  {
  }

  method GetInnerColumnsWithTypes(columnName: string, spec: string) returns (r: Option<seq<(string, string)>>)
    ensures r == InnerTypes(|columnName|, spec)
  {
    var innerSpec :- GetInnerSpec(columnName, spec);
    innerSpec := Strip(innerSpec);
    TrimmedStays(innerSpec);
    var columns := CutTypes(innerSpec, Strip(innerSpec) + ",");
    r := Some(columns);
  }

  /** What the indices of the loop stand for. */
  ghost predicate Tracks(text: string, i: nat, comma: nat, space: nat, s: Typed)
  {
    && comma <= i <= |text| && space <= i
    && s.since == text[comma..i]
    && s.name == Slice(text, comma, space)
    && s.last == text[space..i]
  }

  lemma TracksNext(text: string, i: nat, comma: nat, space: nat, s: Typed)
    requires Tracks(text, i, comma, space, s) && i < |text|
    ensures var x := text[i];
            if x == ',' && s.brackets == 0 then Tracks(text, i + 1, i + 1, space, NextTyped(s, x))
            else if x == ' ' && s.brackets == 0 then Tracks(text, i + 1, comma, i + 1, NextTyped(s, x))
            else Tracks(text, i + 1, comma, space, NextTyped(s, x))
  {
    assert text[comma..i + 1] == text[comma..i] + [text[i]];
    assert text[space..i + 1] == text[space..i] + [text[i]];
  }

  /** What the loop stores at a comma. */
  lemma CommaFinds(innerSpec: string, text: string, i: nat, comma: nat, space: nat, s: Typed)
    requires text == innerSpec + "," && i < |text| && Tracks(text, i, comma, space, s) && s.brackets == 0
    ensures NextTyped(s, ',').found
         == s.found + [(Strip(Slice(innerSpec, comma, space)), Slice(innerSpec, space, i))]
  {
    SliceBelow(innerSpec, text, space, i);
    assert Slice(innerSpec, comma, space) == Slice(text, comma, space);
  }

  method CutTypes(innerSpec: string, text: string) returns (columns: seq<(string, string)>)
    requires text == innerSpec + ","
    ensures columns == TypesOf(innerSpec)
  {
    var brackets, prevComma, prevSpace := 0, 0, 0;
    columns := [];
    ghost var s := Typed(0, "", "", "", []);
    assert text[0..] == text;
    for i := 0 to |text|
      invariant Tracks(text, i, prevComma, prevSpace, s)
      invariant s.brackets == brackets && s.found == columns
      invariant RunTyped(s, text[i..]) == RunTyped(Typed(0, "", "", "", []), text)
    {
      var x := text[i];
      assert text[i..][1..] == text[i + 1..];
      TracksNext(text, i, prevComma, prevSpace, s);
      if x == ',' {
        if brackets == 0 {
          CommaFinds(innerSpec, text, i, prevComma, prevSpace, s);
          columns := columns + [(Strip(Slice(innerSpec, prevComma, prevSpace)), Slice(innerSpec, prevSpace, i))];
          prevComma := i + 1;
        }
      } else if x == '(' {
        brackets := brackets + 1;
      } else if x == ')' {
        brackets := brackets - 1;
      } else if x == ' ' {
        if brackets == 0 {
          prevSpace := i + 1;
        }
      }
      s := NextTyped(s, x);
    }
  }

  // ----- stripping -----

  lemma TrimmedStays(s: string)
    requires s == "" || Trimmed(s)
    ensures Strip(s) == s
  {
  }

  /** White space as Unicode has it, and the four separators from 28 on. */
  predicate White(c: char)
  {
    var n := c as int;
    || n == 32 || 9 <= n <= 13 || 28 <= n <= 31 || n == 0x85 || n == 0xa0 || n == 0x1680 || 0x2000 <= n <= 0x200a
    || n == 0x2028 || n == 0x2029 || n == 0x202f || n == 0x205f || n == 0x3000
  }

  predicate AllWhite(s: string)
  {
    forall i :: 0 <= i < |s| ==> White(s[i])
  }

  lemma SpaceIsWhite(c: char)
    ensures IsSpace(c) <==> White(c)
  {
    assert SPACES[0] == (32, 32) && SPACES[1] == (9, 13) && SPACES[2] == (28, 31) && SPACES[3] == (0x85, 0x85);
    assert SPACES[4] == (0xa0, 0xa0) && SPACES[5] == (0x1680, 0x1680) && SPACES[6] == (0x2000, 0x200a);
    assert SPACES[7] == (0x2028, 0x2029) && SPACES[8] == (0x202f, 0x202f) && SPACES[9] == (0x205f, 0x205f);
    assert SPACES[10] == (0x3000, 0x3000);
  }

  lemma StripFirst(text: string)
    requires text != "" && White(text[0])
    ensures Strip(text) == Strip(text[1..])
  {
    SpaceIsWhite(text[0]);
  }

  lemma StripLast(text: string)
    requires text != "" && !White(text[0]) && White(text[|text| - 1])
    ensures Strip(text) == Strip(text[..|text| - 1])
  {
    SpaceIsWhite(text[0]);
    SpaceIsWhite(text[|text| - 1]);
  }

  lemma {:induction false} StripFront(before: string, text: string)
    requires AllWhite(before)
    ensures Strip(before + text) == Strip(text)
    decreases |before|
  {
    if before == "" {
      assert before + text == text;
    } else {
      StripFirst(before + text);
      assert (before + text)[1..] == before[1..] + text;
      StripFront(before[1..], text);
    }
  }

  lemma {:induction false} StripBack(text: string, after: string)
    requires AllWhite(after) && text != "" && !White(text[0])
    ensures Strip(text + after) == Strip(text)
    decreases |after|
  {
    if after == "" {
      assert text + after == text;
    } else {
      var whole := text + after;
      assert whole[0] == text[0] && whole[|whole| - 1] == after[|after| - 1];
      StripLast(whole);
      assert whole[..|whole| - 1] == text + after[..|after| - 1];
      StripBack(text, after[..|after| - 1]);
    }
  }

  lemma OnlyWhite(s: string)
    requires AllWhite(s)
    ensures Strip("" + s) == ""
  {
    assert "" + s == s + "";
    StripFront(s, "");
  }

  lemma NotWhiteStays(s: string)
    requires s != "" && !White(s[0]) && !White(s[|s| - 1])
    ensures Strip(s) == s
  {
    SpaceIsWhite(s[0]);
    SpaceIsWhite(s[|s| - 1]);
    TrimmedStays(s);
  }

  /** Exactly the white space on either side is stripped, whatever is between. */
  lemma StripsWhite(before: string, s: string, after: string)
    requires AllWhite(before) && AllWhite(after) && (s != "" ==> !White(s[0]) && !White(s[|s| - 1]))
    ensures Strip(before + s + after) == s
  {
    assert before + s + after == before + (s + after);
    StripFront(before, s + after);
    if s == "" {
      OnlyWhite(after);
    } else {
      StripBack(s, after);
      NotWhiteStays(s);
    }
  }

  /** What a printed list has between a comma and the next element; nothing before the first. */
  predicate Gap(pad: string)
  {
    pad == "" || pad == " "
  }

  /** A name between spaces. */
  lemma StripName(pad: string, name: string)
    requires Gap(pad) && Trimmed(name)
    ensures Strip(pad + (name + " ")) == name
  {
    var s := name + " ";
    assert s[..|name|] == name;
    TrimmedStays(name);
    assert IsSpace(' ') by {
      assert SPACES[0] == (32, 32);
    }
    assert Strip(s) == name;
    if pad == "" {
      assert pad + s == s;
    } else {
      assert (pad + s)[1..] == s;
    }
  }

  lemma StripAfterSpace(s: string)
    requires Trimmed(s)
    ensures Strip(" " + s) == s
  {
    assert SPACES[0] == (32, 32) && IsSpace(' ');
    assert (" " + s)[1..] == s;
    TrimmedStays(s);
  }

  lemma StripGap(pad: string)
    requires Gap(pad)
    ensures Strip(pad) == ""
  {
    assert " "[1..] == "" && SPACES[0] == (32, 32);
  }

  // ----- bracket depth -----

  /** The bracket depth after the text; None if it closes more than it opened, or, unless it is a list,
      separates anything outside brackets. */
  function Level(text: string, depth: nat, isList: bool): Option<nat>
    decreases text
  {
    if text == "" then Some(depth)
    else if text[0] == '(' then Level(text[1..], depth + 1, isList)
    else if text[0] == ')' then if depth == 0 then None else Level(text[1..], depth - 1, isList)
    else if (text[0] == ',' || text[0] == ' ') && depth == 0 && !isList then None
    else Level(text[1..], depth, isList)
  }

  predicate Balanced(text: string)
  {
    Level(text, 0, true) == Some(0)
  }

  /** Balanced, with no comma or space outside brackets. */
  predicate Quiet(text: string)
  {
    Level(text, 0, false) == Some(0)
  }

  lemma {:induction false} LevelAppend(a: string, b: string, depth: nat, isList: bool)
    ensures Level(a + b, depth, isList)
         == (var d := Level(a, depth, isList); if d.None? then None else Level(b, d.value, isList))
    decreases a
  {
    if a == "" {
      assert a + b == b;
    } else {
      assert (a + b)[1..] == a[1..] + b;
      var next := if a[0] == '(' then depth + 1 else if a[0] == ')' && depth > 0 then depth - 1 else depth;
      LevelAppend(a[1..], b, next, isList);
    }
  }

  lemma {:induction false} LevelDeeper(text: string, depth: nat, isList: bool, more: nat, isList': bool)
    requires Level(text, depth, isList).Some? && (more > 0 || isList' || !isList)
    ensures Level(text, depth + more, isList') == Some(Level(text, depth, isList).value + more)
    decreases text
  {
    if text != "" {
      LevelDeeper(text[1..], depth + Turn(text[0]), isList, more, isList');
    }
  }

  lemma QuietIsBalanced(text: string)
    requires Quiet(text)
    ensures Balanced(text)
  {
    LevelDeeper(text, 0, false, 0, true);
  }

  lemma BalancedAppend(a: string, b: string)
    requires Balanced(a) && Balanced(b)
    ensures Balanced(a + b)
  {
    LevelAppend(a, b, 0, true);
  }

  lemma OneChar(c: char, depth: nat, isList: bool)
    ensures Level([c], depth, isList)
         == if c == '(' then Some(depth + 1)
            else if c == ')' then if depth == 0 then None else Some(depth - 1)
            else if (c == ',' || c == ' ') && depth == 0 && !isList then None
            else Some(depth)
  {
    assert [c][1..] == "";
  }

  predicate Word(s: string)
  {
    forall i :: 0 <= i < |s| ==> s[i] != '(' && s[i] != ')' && s[i] != ',' && s[i] != ' '
  }

  lemma {:induction false} WordIsQuiet(s: string)
    requires Word(s)
    ensures Quiet(s)
  {
    if s != "" {
      WordIsQuiet(s[1..]);
    }
  }

  /** name(body) is quiet whatever list the body is. */
  lemma BracketsAreQuiet(head: string, body: string)
    requires Word(head) && Balanced(body)
    ensures Quiet(head + "(" + body + ")")
  {
    WordIsQuiet(head);
    OneChar('(', 0, false);
    LevelAppend(head, "(", 0, false);
    LevelDeeper(body, 0, true, 1, false);
    LevelAppend(head + "(", body, 0, false);
    OneChar(')', 1, false);
    LevelAppend(head + "(" + body, ")", 0, false);
  }

  /** Inside a bracket the loop runs on as long as the text is balanced. */
  lemma {:induction false} CloseRunsOn(spec: string, i: nat, j: nat, depth: nat)
    requires i <= j < |spec| && Level(spec[i..j], depth, true).Some?
    ensures CloseAt(spec, i, depth + 1) == CloseAt(spec, j, Level(spec[i..j], depth, true).value + 1)
    decreases j - i
  {
    if i < j {
      assert spec[i..j][1..] == spec[i + 1..j];
      CloseRunsOn(spec, i + 1, j, depth + Turn(spec[i]));
    } else {
      assert spec[i..j] == "";
    }
  }

  /** The body between the brackets comes back, whatever follows them. */
  lemma InnerOfBrackets(head: string, body: string, after: string)
    requires Balanced(body)
    ensures InnerSpec(|head|, head + "(" + body + ")" + after) == Some(body)
  {
    var spec := head + "(" + body + ")" + after;
    var i := |head| + 1;
    var j := i + |body|;
    assert spec[|head|] == '(' && spec[j] == ')' && spec[i..j] == body;
    CloseRunsOn(spec, i, j, 0);
  }

  // ----- the element list of a tuple -----

  /** An element as (name, type); an unnamed element has the name "". */
  function ElementText(e: (string, string)): string
  {
    if e.0 == "" then e.1 else e.0 + " " + e.1
  }

  function Listing(es: seq<(string, string)>): string
  {
    if es == [] then ""
    else if |es| == 1 then ElementText(es[0])
    else ElementText(es[0]) + ", " + Listing(es[1..])
  }

  predicate Element(e: (string, string))
  {
    && Quiet(e.0) && (e.0 == "" || Trimmed(e.0))
    && Quiet(e.1) && Trimmed(e.1)
  }

  predicate Elements(es: seq<(string, string)>)
  {
    es == [] || (Element(es[0]) && Elements(es[1..]))
  }

  lemma {:induction false} RunAppend(s: Typed, a: string, b: string)
    ensures RunTyped(s, a + b) == RunTyped(RunTyped(s, a), b)
    decreases a
  {
    if a == "" {
      assert a + b == b;
    } else {
      assert (a + b)[1..] == a[1..] + b;
      RunAppend(NextTyped(s, a[0]), a[1..], b);
    }
  }

  /** Quiet text is only collected. */
  lemma {:induction false} RunLevel(s: Typed, text: string)
    requires s.brackets >= 0 && Level(text, s.brackets, false).Some?
    ensures RunTyped(s, text)
         == s.(brackets := Level(text, s.brackets, false).value, since := s.since + text, last := s.last + text)
    decreases text
  {
    if text == "" {
      assert s.since + text == s.since && s.last + text == s.last;
    } else {
      RunLevel(NextTyped(s, text[0]), text[1..]);
      assert s.since + [text[0]] + text[1..] == s.since + text;
      assert s.last + [text[0]] + text[1..] == s.last + text;
    }
  }

  lemma RunOne(s: Typed, ch: char)
    ensures RunTyped(s, [ch]) == NextTyped(s, ch)
  {
    assert [ch][1..] == "";
  }

  /** The machine where an element starts: at the beginning, or after ", ". */
  function Fresh(pad: string, found: seq<(string, string)>): Typed
  {
    Typed(0, pad, pad, "", found)
  }

  /** Up to its end, an element leaves its name and its type collected. */
  lemma RunUnnamed(pad: string, found: seq<(string, string)>, spec: string)
    requires Quiet(spec)
    ensures RunTyped(Fresh(pad, found), spec) == Typed(0, pad + spec, pad, spec, found)
  {
    RunLevel(Fresh(pad, found), spec);
    assert "" + spec == spec;
  }

  lemma RunNamed(pad: string, found: seq<(string, string)>, name: string, spec: string)
    requires Quiet(name) && Quiet(spec)
    ensures RunTyped(Fresh(pad, found), name + " " + spec)
         == Typed(0, pad + name + " " + spec, pad + name + " ", spec, found)
  {
    var s, named := Fresh(pad, found), Typed(0, pad + name + " ", pad + name + " ", "", found);
    RunUnnamed(pad, found, name);
    RunOne(Typed(0, pad + name, pad, name, found), ' ');
    RunAppend(s, name, " ");
    RunLevel(named, spec);
    assert "" + spec == spec;
    RunAppend(s, name + " ", spec);
  }

  /** An element and the comma after it. */
  lemma RunElement(pad: string, found: seq<(string, string)>, e: (string, string))
    requires Gap(pad) && Element(e)
    ensures RunTyped(Fresh(pad, found), ElementText(e) + ",") == Typed(0, "", "", e.1 + ",", found + [e])
  {
    var s := Fresh(pad, found);
    RunAppend(s, ElementText(e), ",");
    if e.0 == "" {
      RunUnnamed(pad, found, e.1);
      StripGap(pad);
    } else {
      RunNamed(pad, found, e.0, e.1);
      assert pad + e.0 + " " == pad + (e.0 + " ");
      StripName(pad, e.0);
    }
    RunOne(RunTyped(s, ElementText(e)), ',');
  }

  lemma RunNext(s: Typed, shown: string, rest: string)
    requires RunTyped(s, shown + ",").brackets == 0 && RunTyped(s, shown + ",").since == ""
    ensures RunTyped(s, shown + ", " + rest + ",") == RunTyped(Fresh(" ", RunTyped(s, shown + ",").found), rest + ",")
  {
    var t := RunTyped(s, shown + ",");
    RunOne(t, ' ');
    assert "" + " " == " ";
    RunAppend(t, " ", rest + ",");
    RunAppend(s, shown + ",", " " + (rest + ","));
    assert shown + ", " + rest + "," == shown + "," + (" " + (rest + ","));
  }

  lemma {:induction false} RunListing(pad: string, found: seq<(string, string)>, es: seq<(string, string)>)
    requires Gap(pad) && es != [] && Elements(es)
    ensures RunTyped(Fresh(pad, found), Listing(es) + ",").found == found + es
    decreases |es|
  {
    RunElement(pad, found, es[0]);
    if |es| == 1 {
      assert [es[0]] == es;
    } else {
      RunNext(Fresh(pad, found), ElementText(es[0]), Listing(es[1..]));
      RunListing(" ", found + [es[0]], es[1..]);
      assert found + [es[0]] + es[1..] == found + es;
    }
  }

  lemma TrimmedJoin(a: string, b: string, c: string)
    requires Trimmed(a) && Trimmed(c)
    ensures Trimmed(a + b + c)
  {
  }

  lemma ElementIsTrimmed(e: (string, string))
    requires Element(e)
    ensures Trimmed(ElementText(e)) && Balanced(ElementText(e))
  {
    QuietIsBalanced(e.1);
    if e.0 != "" {
      TrimmedJoin(e.0, " ", e.1);
      QuietIsBalanced(e.0);
      OneChar(' ', 0, true);
      BalancedAppend(e.0, " ");
      BalancedAppend(e.0 + " ", e.1);
    }
  }

  lemma {:induction false} ListingIsTrimmed(es: seq<(string, string)>)
    requires es != [] && Elements(es)
    ensures Trimmed(Listing(es)) && Balanced(Listing(es))
  {
    ElementIsTrimmed(es[0]);
    if |es| > 1 {
      ListingIsTrimmed(es[1..]);
      TrimmedJoin(ElementText(es[0]), ", ", Listing(es[1..]));
      OneChar(',', 0, true);
      OneChar(' ', 0, true);
      assert "," + " " == ", ";
      LevelAppend(",", " ", 0, true);
      BalancedAppend(ElementText(es[0]), ", ");
      BalancedAppend(ElementText(es[0]) + ", ", Listing(es[1..]));
    }
  }

  /** A list written with ", " between its elements is cut into exactly those elements. */
  lemma TypesOfListing(head: string, es: seq<(string, string)>, after: string)
    requires es != [] && Elements(es)
    ensures InnerTypes(|head|, head + "(" + Listing(es) + ")" + after) == Some(es)
  {
    ListingIsTrimmed(es);
    InnerOfBrackets(head, Listing(es), after);
    TrimmedStays(Listing(es));
    RunListing("", [], es);
    assert [] + es == es;
  }

  /** Without the space the second type still starts where the first one did. */
  lemma CommaAloneMerges(a: string, b: string)
    requires Quiet(a) && Quiet(b) && Trimmed(a) && Trimmed(b)
    ensures InnerTypes(5, "tuple(" + (a + "," + b) + ")") == Some([("", a), ("", a + "," + b)])
  {
    var text := a + "," + b;
    QuietIsBalanced(a);
    QuietIsBalanced(b);
    OneChar(',', 0, true);
    BalancedAppend(a, ",");
    BalancedAppend(a + ",", b);
    TrimmedJoin(a, ",", b);
    InnerOfBrackets("tuple", text, "");
    assert "tuple" + "(" + text + ")" + "" == "tuple(" + text + ")";
    TrimmedStays(text);
    MergedTypes(a, b);
  }

  lemma MergedTypes(a: string, b: string)
    requires Quiet(a) && Quiet(b)
    ensures TypesOf(a + "," + b) == [("", a), ("", a + "," + b)]
  {
    var s := Fresh("", []);
    var t := Typed(0, "", "", a + ",", [("", a)]);
    RunElementOnly(a);
    RunLevel(t, b);
    assert "" + b == b && a + "," + b + "," == a + "," + (b + ",");
    RunAppend(s, a + ",", b + ",");
    RunAppend(t, b, ",");
    RunOne(Typed(0, b, "", a + "," + b, [("", a)]), ',');
  }

  lemma RunElementOnly(a: string)
    requires Quiet(a)
    ensures RunTyped(Fresh("", []), a + ",") == Typed(0, "", "", a + ",", [("", a)])
  {
    RunUnnamed("", [], a);
    RunAppend(Fresh("", []), a, ",");
    RunOne(Typed(0, "" + a, "", a, []), ',');
    assert [] + [("", a)] == [("", a)];
  }

  // ----- the two types of a map -----

  lemma ColumnsOfPair(head: string, a: string, b: string, after: string)
    requires Quiet(a) && Quiet(b)
    ensures InnerColumns(|head|, head + "(" + (a + ", " + b) + ")" + after) == Some([a, b])
  {
    var text := a + ", " + b;
    PairIsBalanced(a, b);
    InnerOfBrackets(head, text, after);
    PartsOfPair(a, b);
  }

  lemma PairIsBalanced(a: string, b: string)
    requires Quiet(a) && Quiet(b)
    ensures Balanced(a + ", " + b)
  {
    QuietIsBalanced(a);
    QuietIsBalanced(b);
    OneChar(',', 0, true);
    OneChar(' ', 0, true);
    assert "," + " " == ", ";
    LevelAppend(",", " ", 0, true);
    BalancedAppend(a, ", ");
    BalancedAppend(a + ", ", b);
  }

  lemma {:induction false} PartsAppend(s: Parts, a: string, b: string)
    ensures RunParts(s, a + b) == RunParts(RunParts(s, a), b)
    decreases a
  {
    if a == "" {
      assert a + b == b;
    } else {
      assert (a + b)[1..] == a[1..] + b;
      PartsAppend(NextPart(s, a[0]), a[1..], b);
    }
  }

  lemma {:induction false} PartsLevel(s: Parts, text: string)
    requires s.brackets >= 0 && Level(text, s.brackets, false).Some?
    ensures RunParts(s, text) == s.(brackets := Level(text, s.brackets, false).value, part := s.part + text)
    decreases text
  {
    if text == "" {
      assert s.part + text == s.part;
    } else {
      PartsLevel(NextPart(s, text[0]), text[1..]);
      assert s.part + [text[0]] + text[1..] == s.part + text;
    }
  }

  lemma PartThenComma(found: seq<string>, a: string)
    requires Quiet(a)
    ensures RunParts(Parts(0, "", found), a + ",") == Parts(0, "", found + [a])
  {
    var s := Parts(0, "", found);
    PartsLevel(s, a);
    assert "" + a == a && ","[1..] == "";
    PartsAppend(s, a, ",");
    assert RunParts(Parts(0, a, found), ",") == Parts(0, "", found + [a]);
  }

  lemma PartsOfPair(a: string, b: string)
    requires Quiet(a) && Quiet(b)
    ensures PartsOf(a + ", " + b) == [a, b]
  {
    var s, t := Parts(0, "", []), Parts(0, "", [a]);
    PartThenComma([], a);
    PartThenComma([a], b);
    assert [] + [a] == [a] && [a] + [b] == [a, b];
    PartSpace(t);
    PartsAppend(t, " ", b + ",");
    PartsAppend(s, a + ",", " " + (b + ","));
    PairText(a, b);
  }

  lemma PartSpace(t: Parts)
    requires t.brackets == 0 && t.part == ""
    ensures RunParts(t, " ") == t
  {
    assert " "[1..] == "";
  }

  lemma PairText(a: string, b: string)
    ensures a + ", " + b + "," == a + "," + (" " + (b + ","))
  {
  }
}
