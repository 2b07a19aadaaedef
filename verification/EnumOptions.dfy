/** The option list of an enum specification: its rendering and the state machine that reads it. */
module EnumOptions {
  import opened Outcomes
  import opened Columns
  import opened Numerals
  import Scalars

  // ----- the reader -----

  /** The variables of the character loop. Only the single quote opens a name. */
  datatype State = State(options: seq<Choice>, afterName: bool, escaped: bool, quoted: bool,
                         name: string, value: string)

  const START := State([], false, false, false, "", "")

  /** `options[name] = code` on a dict. */
  function Put(options: seq<Choice>, name: string, code: int): seq<Choice>
  {
    if options == [] then [Choice(name, code)]
    else if options[0].name == name then [Choice(name, code)] + options[1..]
    else [options[0]] + Put(options[1..], name, code)
  }

  /** `options.setdefault(name, code)` */
  function SetDefault(options: seq<Choice>, name: string, code: int): seq<Choice>
  {
    if options == [] then [Choice(name, code)]
    else if options[0].name == name then options
    else [options[0]] + SetDefault(options[1..], name, code)
  }

  /** One turn of the loop; int() may raise. */
  function Step(st: State, ch: char): Option<State>
  {
    if st.escaped then Some(st.(name := st.name + [ch], escaped := false))
    else if st.afterName then
      if ch == ' ' || ch == '=' then Some(st)
      else if ch == ',' then
        var code :- ParseInt(st.value);
        Some(st.(options := Put(st.options, st.name, code), afterName := false, name := "", value := ""))
      else Some(st.(value := st.value + [ch]))
    else if st.quoted then
      if ch == '\\' then Some(st.(escaped := true))
      else if ch == '\'' then Some(st.(quoted := false, afterName := true))
      else Some(st.(name := st.name + [ch]))
    else if ch == '\'' then Some(st.(quoted := true))
    else Some(st)
  }

  function Run(st: State, text: string): Option<State>
    decreases text
  {
    if text == "" then Some(st)
    else
      var st' :- Step(st, text[0]);
      Run(st', text[1..])
  }

  function Finish(st: State): Option<seq<Choice>>
  {
    if st.afterName then
      var code :- ParseInt(st.value);
      Some(SetDefault(st.options, st.name, code))
    else Some(st.options)
  }

  /** _parse_options */
  function ParseOptions(text: string): Option<seq<Choice>>
  {
    var st :- Run(START, text);
    Finish(st)
  }

  method ParseOptionString(text: string) returns (r: Option<seq<Choice>>)
    ensures r == ParseOptions(text)
  {
    var st := START;
    assert text[0..] == text;
    for i := 0 to |text|
      invariant Run(START, text) == Run(st, text[i..])
    {
      assert text[i..][1..] == text[i + 1..];
      var st' := Step(st, text[i]);
      if st'.None? {
        return None;
      }
      st := st'.value;
    }
    r := Finish(st);
  }

  // ----- the renderings -----

  /** `name.replace("'", r"\'")`, as error messages spell a choice. */
  function EscapeQuotes(name: string): string
  {
    if name == "" then ""
    else (if name[0] == '\'' then "\\'" else [name[0]]) + EscapeQuotes(name[1..])
  }

  function EscapeOne(c: char): string
  {
    if c == '\'' || c == '\\' then ['\\', c] else [c]
  }

  /** Quotes and backslashes escaped. */
  function EscapeAll(name: string): string
  {
    if name == "" then "" else EscapeOne(name[0]) + EscapeAll(name[1..])
  }

  /** "'name' = code" with the name escaped already. */
  function RenderChoice(escaped: string, code: int): string
  {
    "'" + escaped + "' = " + Show(code)
  }

  function Render(choices: seq<Choice>, escape: string -> string): string
  {
    if choices == [] then ""
    else if |choices| == 1 then RenderChoice(escape(choices[0].name), choices[0].code)
    else RenderChoice(escape(choices[0].name), choices[0].code) + ", " + Render(choices[1..], escape)
  }

  // ----- reading what was rendered -----

  ghost predicate DistinctNames(choices: seq<Choice>)
  {
    forall i, j :: 0 <= i < j < |choices| ==> choices[i].name != choices[j].name
  }

  lemma {:induction false} RunAppend(st: State, a: string, b: string)
    ensures Run(st, a + b) == (var st' := Run(st, a); if st'.None? then None else Run(st'.value, b))
    decreases a
  {
    if a == "" {
      assert a + b == b;
    } else {
      assert (a + b)[1..] == a[1..] + b;
      var st' := Step(st, a[0]);
      if st'.Some? {
        RunAppend(st'.value, a[1..], b);
      }
    }
  }

  lemma RunChar(st: State, c: char)
    requires st.quoted && !st.escaped && !st.afterName
    ensures Run(st, EscapeOne(c)) == Some(st.(name := st.name + [c]))
  {
    assert [c][1..] == "" && ['\\', c][1..] == [c];
    assert Run(st.(escaped := true), [c]) == Some(st.(name := st.name + [c]));
  }

  /** Inside quotes an escaped name is collected literally. */
  lemma {:induction false} RunName(st: State, name: string)
    requires st.quoted && !st.escaped && !st.afterName
    ensures Run(st, EscapeAll(name)) == Some(st.(name := st.name + name))
    decreases name
  {
    if name == "" {
      assert st.name + name == st.name;
    } else {
      var st' := st.(name := st.name + [name[0]]);
      RunChar(st, name[0]);
      RunName(st', name[1..]);
      RunAppend(st, EscapeOne(name[0]), EscapeAll(name[1..]));
      NameGrows(st.name, name);
    }
  }

  lemma NameGrows(front: string, name: string)
    requires name != ""
    ensures front + [name[0]] + name[1..] == front + name
  {
  }

  /** After the name, the digits of the code are collected. */
  lemma {:induction false} RunValue(st: State, text: string)
    requires st.afterName && !st.escaped
    requires forall i :: 0 <= i < |text| ==> NumeralChar(text[i])
    ensures Run(st, text) == Some(st.(value := st.value + text))
    decreases text
  {
    if text == "" {
      assert st.value + text == st.value;
    } else {
      var st' := st.(value := st.value + [text[0]]);
      RunValue(st', text[1..]);
      assert st.value + text == st.value + [text[0]] + text[1..];
    }
  }

  lemma RunChoice(options: seq<Choice>, choice: Choice)
    ensures Run(START.(options := options), RenderChoice(EscapeAll(choice.name), choice.code))
         == Some(State(options, true, false, false, choice.name, Show(choice.code)))
  {
    var st := START.(options := options);
    var escaped, code := EscapeAll(choice.name), Show(choice.code);
    var open, closed := st.(quoted := true), State(options, true, false, false, choice.name, "");
    assert "'"[1..] == "";
    assert Run(st, "'") == Some(open);
    RunName(open, choice.name);
    assert "" + choice.name == choice.name && "" + code == code;
    RunAppend(st, "'", escaped);
    Gap(open.(name := choice.name));
    RunAppend(st, "'" + escaped, "' = ");
    ShowChars(choice.code);
    RunValue(closed, code);
    RunAppend(st, "'" + escaped + "' = ", code);
  }

  lemma Gap(st: State)
    requires st.quoted && !st.escaped && !st.afterName
    ensures Run(st, "' = ") == Some(st.(quoted := false, afterName := true))
  {
    var st' := st.(quoted := false, afterName := true);
    assert "' = "[1..] == " = " && " = "[1..] == "= " && "= "[1..] == " " && " "[1..] == "";
    assert Run(st', " ") == Some(st');
    assert Run(st', "= ") == Some(st');
    assert Run(st', " = ") == Some(st');
  }

  /** Between two choices the comma stores the first and clears the state. */
  lemma RunSeparator(options: seq<Choice>, choice: Choice)
    ensures Run(State(options, true, false, false, choice.name, Show(choice.code)), ", ")
         == Some(START.(options := Put(options, choice.name, choice.code)))
  {
    var st := START.(options := Put(options, choice.name, choice.code));
    ParseShow(choice.code);
    assert ", "[1..] == " " && " "[1..] == "";
    assert Run(st, " ") == Some(st);
  }

  lemma RunOne(done: seq<Choice>, choice: Choice, rest: string)
    ensures Run(START.(options := done), RenderChoice(EscapeAll(choice.name), choice.code) + ", " + rest)
         == Run(START.(options := Put(done, choice.name, choice.code)), rest)
  {
    var st, first := START.(options := done), RenderChoice(EscapeAll(choice.name), choice.code);
    RunChoice(done, choice);
    RunSeparator(done, choice);
    RunAppend(st, first, ", ");
    RunAppend(st, first + ", ", rest);
  }

  /** Every choice but the last is stored under its name; the last only if the name is new. */
  function Merged(done: seq<Choice>, choices: seq<Choice>): seq<Choice>
    requires choices != []
    decreases choices
  {
    var first := choices[0];
    if |choices| == 1 then SetDefault(done, first.name, first.code)
    else Merged(Put(done, first.name, first.code), choices[1..])
  }

  lemma {:induction false} RunRendered(done: seq<Choice>, choices: seq<Choice>)
    requires choices != []
    ensures var st := Run(START.(options := done), Render(choices, EscapeAll));
            st.Some? && Finish(st.value) == Some(Merged(done, choices))
    decreases choices
  {
    if |choices| == 1 {
      RunChoice(done, choices[0]);
      ParseShow(choices[0].code);
    } else {
      RunOne(done, choices[0], Render(choices[1..], EscapeAll));
      RunRendered(Put(done, choices[0].name, choices[0].code), choices[1..]);
    }
  }

  lemma {:induction false} FreshName(options: seq<Choice>, choice: Choice)
    requires forall i :: 0 <= i < |options| ==> options[i].name != choice.name
    ensures Put(options, choice.name, choice.code) == options + [choice]
    ensures SetDefault(options, choice.name, choice.code) == options + [choice]
  {
    if options != [] {
      FreshName(options[1..], choice);
    }
  }

  lemma NextIsFresh(done: seq<Choice>, choices: seq<Choice>)
    requires choices != [] && DistinctNames(done + choices)
    ensures forall i :: 0 <= i < |done| ==> done[i].name != choices[0].name
    ensures done + [choices[0]] + choices[1..] == done + choices
  {
    forall i | 0 <= i < |done|
      ensures done[i].name != choices[0].name
    {
      assert (done + choices)[i] == done[i] && (done + choices)[|done|] == choices[0];
    }
  }

  lemma {:induction false} MergedFresh(done: seq<Choice>, choices: seq<Choice>)
    requires choices != [] && DistinctNames(done + choices)
    ensures Merged(done, choices) == done + choices
    decreases choices
  {
    NextIsFresh(done, choices);
    FreshName(done, choices[0]);
    if |choices| == 1 {
      assert [choices[0]] == choices;
    } else {
      MergedFresh(done + [choices[0]], choices[1..]);
    }
  }

  /** Reading inverts rendering with quotes and backslashes escaped, for any distinct names. */
  lemma ParseRendered(choices: seq<Choice>)
    requires DistinctNames(choices)
    ensures ParseOptions(Render(choices, EscapeAll)) == Some(choices)
  {
    if choices != [] {
      assert [] + choices == choices;
      RunRendered([], choices);
      MergedFresh([], choices);
    }
  }

  // ----- names that repeat -----

  function NamesIn(choices: seq<Choice>): (r: seq<string>)
    ensures |r| == |choices|
  {
    seq(|choices|, k requires 0 <= k < |choices| => choices[k].name)
  }

  /** The names, each where it occurs first, after those there are. */
  function FirstNames(done: seq<string>, choices: seq<Choice>): seq<string>
    decreases choices
  {
    if choices == [] then done
    else FirstNames(WithName(done, choices[0].name), choices[1..])
  }

  /** The code of the last choice with the name. */
  function LastCode(choices: seq<Choice>, name: string): Option<int>
  {
    if choices == [] then None
    else
      var later := LastCode(choices[1..], name);
      if later.Some? then later else if choices[0].name == name then Some(choices[0].code) else None
  }

  lemma NamesCons(first: Choice, rest: seq<Choice>)
    ensures NamesIn([first] + rest) == [first.name] + NamesIn(rest)
  {
  }

  function WithName(names: seq<string>, name: string): seq<string>
  {
    if name in names then names else names + [name]
  }

  lemma {:induction false} NamesStored(options: seq<Choice>, name: string, code: int)
    ensures NamesIn(Put(options, name, code)) == WithName(NamesIn(options), name)
    ensures NamesIn(SetDefault(options, name, code)) == WithName(NamesIn(options), name)
  {
    if options == [] {
      assert NamesIn([Choice(name, code)]) == [name];
    } else {
      var first, rest := options[0], options[1..];
      assert options == [first] + rest;
      NamesCons(first, rest);
      if first.name == name {
        NamesCons(Choice(name, code), rest);
      } else {
        NamesStored(rest, name, code);
        NamesCons(first, Put(rest, name, code));
        NamesCons(first, SetDefault(rest, name, code));
        NamesGrow(first.name, NamesIn(rest), name);
      }
    }
  }

  lemma NamesGrow(first: string, rest: seq<string>, name: string)
    requires first != name
    ensures WithName([first] + rest, name) == [first] + WithName(rest, name)
  {
  }

  lemma {:induction false} CodeStored(options: seq<Choice>, name: string, code: int, other: string)
    ensures Scalars.CodeOf(Put(options, name, code), other)
         == if other == name then Some(code) else Scalars.CodeOf(options, other)
    ensures Scalars.CodeOf(SetDefault(options, name, code), other)
         == if other == name && Scalars.CodeOf(options, other).None? then Some(code) else Scalars.CodeOf(options, other)
  {
    if options != [] {
      CodeStored(options[1..], name, code, other);
    } else {
      assert [Choice(name, code)][1..] == [];
    }
  }

  lemma {:induction false} MergedNames(done: seq<Choice>, choices: seq<Choice>)
    requires choices != []
    ensures NamesIn(Merged(done, choices)) == FirstNames(NamesIn(done), choices)
    decreases choices
  {
    NamesStored(done, choices[0].name, choices[0].code);
    if |choices| > 1 {
      MergedNames(Put(done, choices[0].name, choices[0].code), choices[1..]);
    } else {
      assert choices[1..] == [];
    }
  }

  /** The code of the name among choices of which the last only counts if the name is new. */
  function CodeAmong(before: Option<int>, choices: seq<Choice>, name: string): Option<int>
    requires choices != []
  {
    var last, stored := choices[|choices| - 1], LastCode(choices[..|choices| - 1], name);
    if stored.Some? then stored
    else if before.Some? then before
    else if last.name == name then Some(last.code) else None
  }

  lemma OneMoreCode(before: Option<int>, choices: seq<Choice>, name: string)
    requires |choices| > 1
    ensures CodeAmong(before, choices, name)
         == CodeAmong(if choices[0].name == name then Some(choices[0].code) else before, choices[1..], name)
  {
    assert choices[..|choices| - 1][1..] == choices[1..][..|choices| - 2];
  }

  lemma {:induction false} MergedCode(done: seq<Choice>, choices: seq<Choice>, name: string)
    requires choices != []
    ensures Scalars.CodeOf(Merged(done, choices), name) == CodeAmong(Scalars.CodeOf(done, name), choices, name)
    decreases choices
  {
    CodeStored(done, choices[0].name, choices[0].code, name);
    if |choices| > 1 {
      OneMoreCode(Scalars.CodeOf(done, name), choices, name);
      MergedCode(Put(done, choices[0].name, choices[0].code), choices[1..], name);
    }
  }

  /** Rendered choices of any names are read as a dict: names in the order of their first occurrences, and for each
      the code of its last occurrence in front of the last choice; the last choice counts only if its name is new. */
  lemma RepeatedNames(choices: seq<Choice>, name: string)
    requires choices != []
    ensures var r := ParseOptions(Render(choices, EscapeAll));
            && r.Some? && NamesIn(r.value) == FirstNames([], choices)
            && Scalars.CodeOf(r.value, name) == CodeAmong(None, choices, name)
  {
    RunRendered([], choices);
    MergedNames([], choices);
    MergedCode([], choices, name);
  }

  /** A code with a bracket in it is no number, whatever comes later. */
  lemma {:induction false} BadCode(st: State, text: string)
    requires st.afterName && !st.escaped && ')' in st.value
    ensures var end := Run(st, text); end.Some? ==> Finish(end.value).None?
    decreases text
  {
    NotANumber(st.value, ')');
    if text != "" && Step(st, text[0]).Some? {
      BadCode(Step(st, text[0]).value, text[1..]);
    }
  }

  lemma FirstRendered(choices: seq<Choice>, tail: string)
    requires |choices| > 1
    ensures Render(choices, EscapeAll) + tail
         == RenderChoice(EscapeAll(choices[0].name), choices[0].code) + ", " + (Render(choices[1..], EscapeAll) + tail)
  {
  }

  /** Options in front of a closing bracket are not understood. */
  lemma {:induction false} RenderedThenBracket(done: seq<Choice>, choices: seq<Choice>, after: string)
    requires choices != []
    ensures var end := Run(START.(options := done), Render(choices, EscapeAll) + (")" + after));
            end.Some? ==> Finish(end.value).None?
    decreases choices
  {
    var tail := ")" + after;
    if |choices| == 1 {
      RunChoice(done, choices[0]);
      RunAppend(START.(options := done), Render(choices, EscapeAll), tail);
      BracketInCode(State(done, true, false, false, choices[0].name, Show(choices[0].code)), after);
    } else {
      FirstRendered(choices, tail);
      RunOne(done, choices[0], Render(choices[1..], EscapeAll) + tail);
      RenderedThenBracket(Put(done, choices[0].name, choices[0].code), choices[1..], after);
    }
  }

  lemma BracketInCode(st: State, after: string)
    requires st.afterName && !st.escaped
    ensures var end := Run(st, ")" + after); end.Some? ==> Finish(end.value).None?
  {
    var st' := st.(value := st.value + ")");
    assert ")" + after != "" && (")" + after)[1..] == after;
    assert Step(st, ')') == Some(st');
    assert st'.value[|st.value|] == ')';
    BadCode(st', after);
  }

  lemma OptionsThenBracket(choices: seq<Choice>, after: string)
    requires choices != [] && DistinctNames(choices)
    ensures ParseOptions(Render(choices, EscapeAll) + (")" + after)) == None
  {
    assert [] + choices == choices;
    RenderedThenBracket([], choices, after);
  }

  // ----- the repository's own rendering escapes quotes only -----

  predicate NoBackslash(choices: seq<Choice>)
  {
    forall i :: 0 <= i < |choices| ==> '\\' !in choices[i].name
  }

  lemma {:induction false} QuotesAreAll(name: string)
    requires '\\' !in name
    ensures EscapeQuotes(name) == EscapeAll(name)
  {
    if name != "" {
      QuotesAreAll(name[1..]);
    }
  }

  lemma {:induction false} RenderingsAgree(choices: seq<Choice>)
    requires NoBackslash(choices)
    ensures Render(choices, EscapeQuotes) == Render(choices, EscapeAll)
  {
    if choices != [] {
      QuotesAreAll(choices[0].name);
      RenderingsAgree(choices[1..]);
    }
  }

  function Count(s: string, c: char): nat
  {
    if s == "" then 0 else (if s[0] == c then 1 else 0) + Count(s[1..], c)
  }

  function NamesCount(choices: seq<Choice>, c: char): nat
  {
    if choices == [] then 0 else Count(choices[0].name, c) + NamesCount(choices[1..], c)
  }

  lemma {:induction false} CountAppend(a: string, b: string, c: char)
    ensures Count(a + b, c) == Count(a, c) + Count(b, c)
  {
    if a == "" {
      assert a + b == b;
    } else {
      assert (a + b)[1..] == a[1..] + b;
      CountAppend(a[1..], b, c);
    }
  }

  /** Backslashes needed to have read what the state holds: two for every backslash, one for a quote. */
  function Spent(st: State): nat
  {
    2 * (NamesCount(st.options, '\\') + Count(st.name, '\\'))
    + NamesCount(st.options, '\'') + Count(st.name, '\'')
    + if st.escaped then 1 else 0
  }

  lemma {:induction false} PutCount(options: seq<Choice>, name: string, code: int, c: char)
    ensures NamesCount(Put(options, name, code), c) <= NamesCount(options, c) + Count(name, c)
    ensures NamesCount(SetDefault(options, name, code), c) <= NamesCount(options, c) + Count(name, c)
  {
    if options != [] {
      PutCount(options[1..], name, code, c);
    }
  }

  lemma StepSpends(st: State, ch: char)
    requires Step(st, ch).Some? && (st.escaped ==> st.quoted && !st.afterName)
    ensures Spent(Step(st, ch).value) <= Spent(st) + if ch == '\\' then 1 else 0
    ensures Step(st, ch).value.escaped ==> Step(st, ch).value.quoted && !Step(st, ch).value.afterName
  {
    CountAppend(st.name, [ch], '\\');
    CountAppend(st.name, [ch], '\'');
    assert forall c :: Count([ch], c) == (if ch == c then 1 else 0) + Count("", c) by {
      assert [ch][1..] == "";
    }
    if !st.escaped && st.afterName && ch == ',' {
      var code := ParseInt(st.value).value;
      PutCount(st.options, st.name, code, '\\');
      PutCount(st.options, st.name, code, '\'');
    }
  }

  lemma {:induction false} RunSpends(st: State, text: string)
    requires Run(st, text).Some? && (st.escaped ==> st.quoted && !st.afterName)
    ensures Spent(Run(st, text).value) <= Spent(st) + Count(text, '\\')
    decreases text
  {
    if text != "" {
      StepSpends(st, text[0]);
      RunSpends(Step(st, text[0]).value, text[1..]);
    }
  }

  lemma {:induction false} EscapeCount(name: string)
    ensures Count(EscapeQuotes(name), '\\') == Count(name, '\\') + Count(name, '\'')
  {
    if name != "" {
      var head := if name[0] == '\'' then "\\'" else [name[0]];
      CountAppend(head, EscapeQuotes(name[1..]), '\\');
      EscapeCount(name[1..]);
      assert [name[0]][1..] == "" && "\\'"[1..] == "'" && "'"[1..] == "";
      assert Count(head, '\\') == if name[0] == '\'' || name[0] == '\\' then 1 else 0;
    }
  }

  lemma {:induction false} NotCounted(s: string, c: char)
    requires c !in s
    ensures Count(s, c) == 0
  {
    if s != "" {
      NotCounted(s[1..], c);
    }
  }

  lemma ChoiceCount(choice: Choice)
    ensures Count(RenderChoice(EscapeQuotes(choice.name), choice.code), '\\')
         == Count(choice.name, '\\') + Count(choice.name, '\'')
  {
    var e, code := EscapeQuotes(choice.name), Show(choice.code);
    CountAppend("'", e, '\\');
    CountAppend("'" + e, "' = ", '\\');
    CountAppend("'" + e + "' = ", code, '\\');
    NotCounted("'", '\\');
    NotCounted("' = ", '\\');
    ShowChars(choice.code);
    NotCounted(code, '\\');
    EscapeCount(choice.name);
  }

  lemma {:induction false} RenderCount(choices: seq<Choice>)
    ensures Count(Render(choices, EscapeQuotes), '\\') == NamesCount(choices, '\\') + NamesCount(choices, '\'')
  {
    if choices != [] {
      var first := RenderChoice(EscapeQuotes(choices[0].name), choices[0].code);
      var rest := Render(choices[1..], EscapeQuotes);
      ChoiceCount(choices[0]);
      RenderCount(choices[1..]);
      CountAppend(first, ", ", '\\');
      CountAppend(first + ", ", rest, '\\');
      NotCounted(", ", '\\');
    }
  }

  lemma {:induction false} CountedNames(choices: seq<Choice>)
    ensures NamesCount(choices, '\\') == 0 ==> NoBackslash(choices)
  {
    if choices != [] {
      CountedNames(choices[1..]);
      Counted(choices[0].name, '\\');
    }
  }

  lemma {:induction false} Counted(s: string, c: char)
    ensures Count(s, c) == 0 ==> c !in s
  {
    if s != "" {
      Counted(s[1..], c);
    }
  }

  /** Reading inverts the repository's rendering exactly when no name has a backslash in it: every
      backslash read back as part of a name takes two to write, and the rendering wrote one. */
  lemma ParseRenderedExactly(choices: seq<Choice>)
    requires DistinctNames(choices)
    ensures ParseOptions(Render(choices, EscapeQuotes)) == Some(choices) <==> NoBackslash(choices)
  {
    if NoBackslash(choices) {
      RenderingsAgree(choices);
      ParseRendered(choices);
    }
    var text := Render(choices, EscapeQuotes);
    if ParseOptions(text) == Some(choices) {
      RunSpends(START, text);
      var st := Run(START, text).value;
      if st.afterName {
        var code := ParseInt(st.value).value;
        PutCount(st.options, st.name, code, '\\');
        PutCount(st.options, st.name, code, '\'');
      }
      RenderCount(choices);
      CountedNames(choices);
    }
  }
}
