/** The LaTeX helpers of `src/resume/latex.ts`: escaping of reserved characters through a
    backslash placeholder, and bold highlighting of the site owner's name in author lists. */
module Latex {
  import opened Strings
  import opened WordMatch
  import Authors

  /** The text backslashes are parked as while the other characters are escaped. */
  const Placeholder: string := "LATEXBACKSLASHPLACEHOLDERX"

  /** What a backslash finally becomes. */
  const BackslashCommand: string := "\\textbackslash{}"

  /** One entry of the replacement table: every occurrence of `target` becomes `replacement`. */
  datatype Rule = Rule(target: char, replacement: string)

  /** The replacement table, in the order it is applied. The replacement `\$` holds a `$` with
      nothing after it, which a replacement string keeps literally. */
  const Rules: seq<Rule> := [
    Rule('&', "\\&"),
    Rule('%', "\\%"),
    Rule('$', "\\$"),
    Rule('#', "\\#"),
    Rule('_', "\\_"),
    Rule('{', "\\{"),
    Rule('}', "\\}"),
    Rule('~', "\\textasciitilde{}"),
    Rule('^', "\\textasciicircum{}")
  ]

  /** The `reduce` over the table: each rule's global replacement applied to the previous result. */
  function ApplyRules(s: string, rules: seq<Rule>): string
    decreases |rules|
  {
    if rules == [] then s
    else ApplyRules(ReplaceAll(s, [rules[0].target], rules[0].replacement), rules[1..])
  }

  /** `escapeLatex`: backslashes to the placeholder, the table, the placeholder to `\textbackslash{}`. */
  function EscapeLatex(value: string): string
  {
    var withoutBackslash := ReplaceAll(value, "\\", Placeholder);
    var escaped := ApplyRules(withoutBackslash, Rules);
    ReplaceAll(escaped, Placeholder, BackslashCommand)
  }

  /** The characters LaTeX reserves and the escape handles. */
  predicate IsReserved(c: char)
  {
    c in "\\&%$#_{}~^"
  }

  /** The intended escape of one character, independent of the staged implementation. */
  function EscapeChar(c: char): (r: string)
    ensures IsReserved(c) <==> r != [c]
    ensures IsReserved(c) ==> 2 <= |r| && r[0] == '\\'
  {
    if c == '\\' then BackslashCommand
    else if c == '&' then "\\&"
    else if c == '%' then "\\%"
    else if c == '$' then "\\$"
    else if c == '#' then "\\#"
    else if c == '_' then "\\_"
    else if c == '{' then "\\{"
    else if c == '}' then "\\}"
    else if c == '~' then "\\textasciitilde{}"
    else if c == '^' then "\\textasciicircum{}"
    else [c]
  }

  /** The first stage: a backslash becomes the placeholder. */
  function HideBackslash(c: char): string
  {
    if c == '\\' then Placeholder else [c]
  }

  /** A character after the first two stages: the placeholder for a backslash, its escape otherwise. */
  function Staged(c: char): string
  {
    if c == '\\' then Placeholder else EscapeChar(c)
  }

  /** The placeholder is 26 upper-case letters and starts with `L`. */
  lemma PlaceholderFacts()
    ensures |Placeholder| == 26 && Placeholder[0] == 'L'
    ensures forall i :: 0 <= i < |Placeholder| ==> 'A' <= Placeholder[i] <= 'Z'
  {
  }

  /** The placeholder overlaps itself nowhere: no proper suffix of it is also a prefix of it. */
  lemma PlaceholderNoBorder()
    ensures forall j :: 0 < j < |Placeholder| ==> Placeholder[..|Placeholder| - j] != Placeholder[j..]
  {
    var P := Placeholder;
    forall j | 0 < j < |P| ensures P[..|P| - j] != P[j..] {
      if j == 10 {
        assert P[j..][2] == P[12];
      } else if j == 15 {
        assert P[j..][2] == P[17];
      } else if j == 21 {
        assert P[j..][1] == P[22];
      } else {
        PlaceholderOtherThanL(j);
        assert P[j..][0] == P[j] && P[..|P| - j][0] == 'L';
      }
    }
  }

  lemma PlaceholderOtherThanL(j: nat)
    requires 0 < j < |Placeholder| && j != 10 && j != 15 && j != 21
    ensures Placeholder[j] != 'L'
  {
  }

  /** Rules whose targets are absent change nothing. */
  lemma {:induction false} ApplyRulesAbsent(w: string, rules: seq<Rule>)
    requires forall k :: 0 <= k < |rules| ==> rules[k].target !in w
    ensures ApplyRules(w, rules) == w
    decreases |rules|
  {
    if rules != [] {
      AbsentFirstChar(w, [rules[0].target]);
      ReplaceAllAbsent(w, [rules[0].target], rules[0].replacement);
      ApplyRulesAbsent(w, rules[1..]);
    }
  }

  /** The table acts on a concatenation part by part: every rule has a one-character target. */
  lemma {:induction false} ApplyRulesAppend(a: string, b: string, rules: seq<Rule>)
    ensures ApplyRules(a + b, rules) == ApplyRules(a, rules) + ApplyRules(b, rules)
    decreases |rules|
  {
    if rules != [] {
      var c, r := rules[0].target, rules[0].replacement;
      var m := x => if x == c then r else [x];
      ReplaceAllSingleIsMap(a + b, c, r);
      ReplaceAllSingleIsMap(a, c, r);
      ReplaceAllSingleIsMap(b, c, r);
      MapConcatAppend(a, b, m);
      ApplyRulesAppend(ReplaceAll(a, [c], r), ReplaceAll(b, [c], r), rules[1..]);
    }
  }

  /** A one-character text meets its rule after rules that leave it alone; the rules after
      that leave the replacement alone. */
  lemma {:induction false} ApplyRulesHit(c: char, rules: seq<Rule>, i: nat)
    requires i < |rules| && rules[i].target == c
    requires forall k :: 0 <= k < i ==> rules[k].target != c
    requires forall k :: i < k < |rules| ==> rules[k].target !in rules[i].replacement
    ensures ApplyRules([c], rules) == rules[i].replacement
    decreases i
  {
    var t, r := rules[0].target, rules[0].replacement;
    var x := ReplaceAll([c], [t], r);
    assert ApplyRules([c], rules) == ApplyRules(x, rules[1..]);
    assert x == if c == t then r else [c] by {
      ReplaceAllSingleIsMap([c], t, r);
    }
    if i == 0 {
      forall k | 0 <= k < |rules[1..]| ensures rules[1..][k].target !in r {
        assert rules[1..][k] == rules[k + 1];
      }
      ApplyRulesAbsent(r, rules[1..]);
    } else {
      assert rules[0].target != c;
      forall k | 0 <= k < i - 1 ensures rules[1..][k].target != c {
        assert rules[1..][k] == rules[k + 1];
      }
      forall k | i - 1 < k < |rules[1..]| ensures rules[1..][k].target !in rules[1..][i - 1].replacement {
        assert rules[1..][k] == rules[k + 1];
      }
      ApplyRulesHit(c, rules[1..], i - 1);
    }
  }

  /** The table's targets in order, and which of them each replacement contains. */
  lemma RuleTable(i: nat)
    requires i < |Rules|
    ensures |Rules| == 9
    ensures forall k :: 0 <= k < i ==> Rules[k].target != Rules[i].target
    ensures forall k :: i < k < |Rules| ==> Rules[k].target !in Rules[i].replacement
  {
  }

  /** No target is an upper-case letter, so none occurs in upper-case text. */
  lemma TargetsNotUpper(w: string)
    requires forall i :: 0 <= i < |w| ==> 'A' <= w[i] <= 'Z'
    ensures forall k :: 0 <= k < |Rules| ==> Rules[k].target !in w
  {
    assert forall k :: 0 <= k < |Rules| ==> !('A' <= Rules[k].target <= 'Z');
  }

  /** Each rule replaces its target by the target's escape. */
  lemma RuleIsEscape(i: nat)
    requires i < |Rules|
    ensures EscapeChar(Rules[i].target) == Rules[i].replacement
  {
    if i == 0 {} else if i == 1 {} else if i == 2 {} else if i == 3 {} else if i == 4 {}
    else if i == 5 {} else if i == 6 {} else if i == 7 {} else {}
  }

  /** The table sends the first stage's image of each character to the character's escape,
      the placeholder left as it is. */
  lemma StagedChar(c: char)
    ensures ApplyRules(HideBackslash(c), Rules) == Staged(c)
  {
    if c == '\\' {
      PlaceholderFacts();
      TargetsNotUpper(Placeholder);
      ApplyRulesAbsent(Placeholder, Rules);
    } else if !IsReserved(c) {
      ApplyRulesAbsent([c], Rules);
    } else {
      var i: nat :| i < |Rules| && Rules[i].target == c by {
        assert c in "&%$#_{}~^";
        var m :| 0 <= m < 9 && "&%$#_{}~^"[m] == c;
        assert Rules[m].target == c;
      }
      RuleTable(i);
      RuleIsEscape(i);
      ApplyRulesHit(c, Rules, i);
    }
  }

  /** After the first two stages the text is the per-character image under `Staged`. */
  lemma {:induction false} MiddleStage(s: string)
    ensures ApplyRules(MapConcat(s, HideBackslash), Rules) == MapConcat(s, Staged)
    decreases |s|
  {
    if s != [] {
      ApplyRulesAppend(HideBackslash(s[0]), MapConcat(s[1..], HideBackslash), Rules);
      StagedChar(s[0]);
      MiddleStage(s[1..]);
    }
  }

  /** A staged text that begins with a suffix of the placeholder (the whole placeholder when
      the text does not start with a backslash) takes those characters from the input itself:
      escapes begin with a backslash, and the placeholder does not overlap itself. */
  lemma {:induction false} PlaceholderFromInput(s: string, j: nat)
    requires j < |Placeholder|
    requires j > 0 || s == [] || s[0] != '\\'
    requires StartsWith(MapConcat(s, Staged), Placeholder[j..])
    ensures StartsWith(s, Placeholder[j..])
    decreases |Placeholder| - j
  {
    PlaceholderFacts();
    PlaceholderNoBorder();
    var P := Placeholder;
    var q := MapConcat(s, Staged);
    var p := P[j..];
    assert s != [];
    var rest := MapConcat(s[1..], Staged);
    assert q == Staged(s[0]) + rest;
    if s[0] == '\\' {
      PlaceholderNotAfterPlaceholder(rest, j);
      assert false;
    } else if IsReserved(s[0]) {
      PlaceholderNotAfterEscape(s[0], rest, j);
      assert false;
    } else {
      PlainStep(s[0], rest, p);
      if j + 1 < |P| {
        assert P[j + 1..] == p[1..];
        PlaceholderFromInput(s[1..], j + 1);
      }
      StartsWithCons(s[0], s[1..], p);
      assert s == [s[0]] + s[1..];
    }
  }

  /** A character that is not reserved stands for itself at the head of a staged text. */
  lemma PlainStep(c: char, rest: string, p: string)
    requires !IsReserved(c) && p != [] && StartsWith(Staged(c) + rest, p)
    ensures c == p[0] && StartsWith(rest, p[1..])
  {
    assert Staged(c) == [c];
    assert ([c] + rest)[..|p|] == [c] + rest[..|p| - 1];
  }

  /** A first character and a text that starts with the rest of a pattern start with it. */
  lemma StartsWithCons(x: char, t: string, p: string)
    requires p != [] && x == p[0] && StartsWith(t, p[1..])
    ensures StartsWith([x] + t, p)
  {
    assert ([x] + t)[..|p|] == [x] + t[..|p| - 1];
    assert p == [p[0]] + p[1..];
  }

  /** A text that starts with the whole placeholder does not start with a proper suffix of it. */
  lemma PlaceholderNotAfterPlaceholder(rest: string, j: nat)
    requires 0 < j < |Placeholder|
    ensures !StartsWith(Placeholder + rest, Placeholder[j..])
  {
    var P := Placeholder;
    assert (P + rest)[..|P| - j] == P[..|P| - j];
    PlaceholderNoBorder();
  }

  /** An escape begins with a backslash, which no part of the placeholder does. */
  lemma PlaceholderNotAfterEscape(c: char, rest: string, j: nat)
    requires IsReserved(c) && c != '\\' && j < |Placeholder|
    ensures !StartsWith(EscapeChar(c) + rest, Placeholder[j..])
  {
    PlaceholderFacts();
    assert (EscapeChar(c) + rest)[0] == '\\';
    assert Placeholder[j..][0] == Placeholder[j];
  }

  /** The last stage on a staged text whose input holds no placeholder: exactly the parked
      backslashes are turned into `\textbackslash{}`. */
  lemma {:induction false} FinalStage(s: string)
    requires !Contains(s, Placeholder)
    ensures ReplaceAll(MapConcat(s, Staged), Placeholder, BackslashCommand) == MapConcat(s, EscapeChar)
    decreases |s|
  {
    if s != [] {
      PlaceholderFacts();
      var P := Placeholder;
      var q := MapConcat(s, Staged);
      var rest := MapConcat(s[1..], Staged);
      assert q == Staged(s[0]) + rest;
      AbsentFromTail(s, P, 1);
      FinalStage(s[1..]);
      if s[0] == '\\' {
        assert q[..|P|] == P && q[|P|..] == rest;
      } else if s[0] != 'L' {
        assert 'L' !in Staged(s[0]);
        ReplaceAllSkip(Staged(s[0]), rest, P, BackslashCommand);
      } else if |q| >= |P| {
        if q[..|P|] == P {
          assert P[0..] == P;
          PlaceholderFromInput(s, 0);
          assert OccursAt(s, P, 0);
        }
        assert q[1..] == rest;
      } else {
        assert ReplaceAll(rest, P, BackslashCommand) == rest;
      }
    }
  }

  /** `escapeLatex` escapes character by character, as `EscapeChar` says, on every input that
      does not contain the placeholder text. */
  lemma EscapeLatexPerChar(s: string)
    requires !Contains(s, Placeholder)
    ensures EscapeLatex(s) == MapConcat(s, EscapeChar)
  {
    ReplaceAllSingleIsMap(s, '\\', Placeholder);
    MapConcatExt(s, x => if x == '\\' then Placeholder else [x], HideBackslash);
    assert "\\" == ['\\'];
    MiddleStage(s);
    FinalStage(s);
  }

  /** The table brings in no character that is absent from the text and from every replacement. */
  lemma {:induction false} ApplyRulesKeepsOut(s: string, rules: seq<Rule>, c: char)
    requires c !in s
    requires forall k :: 0 <= k < |rules| ==> c !in rules[k].replacement
    ensures c !in ApplyRules(s, rules)
    decreases |rules|
  {
    if rules != [] {
      ReplaceAllKeepsOut(s, [rules[0].target], rules[0].replacement, c);
      ApplyRulesKeepsOut(ReplaceAll(s, [rules[0].target], rules[0].replacement), rules[1..], c);
    }
  }

  /** Neither a replacement nor the backslash command holds a line break. */
  lemma NoLineBreakInTable()
    ensures forall k :: 0 <= k < |Rules| ==> '\n' !in Rules[k].replacement
    ensures '\n' !in BackslashCommand
  {
  }

  /** The escape brings in no line break: a text without one stays on one line. */
  lemma EscapeLatexOneLine(s: string)
    requires '\n' !in s
    ensures '\n' !in EscapeLatex(s)
  {
    NoLineBreakInTable();
    PlaceholderFacts();
    ReplaceAllKeepsOut(s, "\\", Placeholder, '\n');
    var w := ReplaceAll(s, "\\", Placeholder);
    ApplyRulesKeepsOut(w, Rules, '\n');
    ReplaceAllKeepsOut(ApplyRules(w, Rules), Placeholder, BackslashCommand, '\n');
  }

  /** Text with no reserved character and no placeholder passes through unchanged. */
  lemma EscapeLatexPlain(s: string)
    requires forall i :: 0 <= i < |s| ==> !IsReserved(s[i])
    requires !Contains(s, Placeholder)
    ensures EscapeLatex(s) == s
  {
    EscapeLatexPerChar(s);
    MapConcatIdentity(s, EscapeChar);
  }

  /** The escape distributes over concatenation when neither part holds an `L` (so neither
      holds, nor can together form, the placeholder). */
  lemma EscapeLatexAppend(a: string, b: string)
    requires 'L' !in a && 'L' !in b
    ensures EscapeLatex(a + b) == EscapeLatex(a) + EscapeLatex(b)
  {
    PlaceholderFacts();
    assert 'L' !in a + b;
    AbsentFirstChar(a, Placeholder);
    AbsentFirstChar(b, Placeholder);
    AbsentFirstChar(a + b, Placeholder);
    EscapeLatexPerChar(a);
    EscapeLatexPerChar(b);
    EscapeLatexPerChar(a + b);
    MapConcatAppend(a, b, EscapeChar);
  }

  lemma SampleAmpersand()
    ensures MapConcat("A&B", EscapeChar) == "A\\&B"
  {
  }

  lemma SampleUnderscore()
    ensures MapConcat("_50%", EscapeChar) == "\\_50\\%"
  {
  }

  lemma SampleHash()
    ensures MapConcat(" #1", EscapeChar) == " \\#1"
  {
  }

  lemma SampleDollar()
    ensures MapConcat(" $2", EscapeChar) == " \\$2"
  {
  }

  lemma SampleBraces()
    ensures MapConcat(" {x}", EscapeChar) == " \\{x\\}"
  {
  }

  /** The image of a two-character text. */
  lemma MapConcatPair(x: char, y: char, f: char -> string)
    ensures MapConcat([x, y], f) == f(x) + f(y)
  {
    assert [x, y][1..] == [y];
    assert [y][1..] == [];
    assert MapConcat([y], f) == f(y) + MapConcat([], f);
    assert MapConcat([x, y], f) == f(x) + MapConcat([y], f);
  }

  lemma SampleTilde()
    ensures MapConcat(" ~", EscapeChar) == " \\textasciitilde{}"
  {
    MapConcatPair(' ', '~', EscapeChar);
  }

  lemma SampleCaret()
    ensures MapConcat(" ^", EscapeChar) == " \\textasciicircum{}"
  {
    MapConcatPair(' ', '^', EscapeChar);
  }

  lemma SampleBackslash()
    ensures MapConcat(" \\", EscapeChar) == " \\textbackslash{}"
  {
    MapConcatPair(' ', '\\', EscapeChar);
  }

  /** The escape test's sample `A&B_50% #1 $2 {x} ~ ^ \\` (written in pieces): every
      reserved character becomes its LaTeX form. */
  lemma EscapeLatexSample()
    ensures EscapeLatex("A&B" + "_50%" + " #1" + " $2" + " {x}" + " ~" + " ^" + " \\")
      == "A\\&B" + "\\_50\\%" + " \\#1" + " \\$2" + " \\{x\\}" + " \\textasciitilde{}" + " \\textasciicircum{}" + " \\textbackslash{}"
  {
    var s := "A&B" + "_50%" + " #1" + " $2" + " {x}" + " ~" + " ^" + " \\";
    PlaceholderFacts();
    assert 'L' !in s;
    AbsentFirstChar(s, Placeholder);
    EscapeLatexPerChar(s);
    MapConcatAppend("A&B" + "_50%" + " #1" + " $2" + " {x}" + " ~" + " ^", " \\", EscapeChar);
    MapConcatAppend("A&B" + "_50%" + " #1" + " $2" + " {x}" + " ~", " ^", EscapeChar);
    MapConcatAppend("A&B" + "_50%" + " #1" + " $2" + " {x}", " ~", EscapeChar);
    MapConcatAppend("A&B" + "_50%" + " #1" + " $2", " {x}", EscapeChar);
    MapConcatAppend("A&B" + "_50%" + " #1", " $2", EscapeChar);
    MapConcatAppend("A&B" + "_50%", " #1", EscapeChar);
    MapConcatAppend("A&B", "_50%", EscapeChar);
    SampleAmpersand();
    SampleUnderscore();
    SampleHash();
    SampleDollar();
    SampleBraces();
    SampleTilde();
    SampleCaret();
    SampleBackslash();
  }

  /** Input that spells the placeholder is not escaped verbatim: it comes out as
      `\textbackslash{}`, although it holds no backslash. */
  lemma EscapeLatexPlaceholderCollision()
    ensures EscapeLatex(Placeholder) == BackslashCommand
  {
    var P := Placeholder;
    var w := ReplaceAll(P, "\\", P);
    var e := ApplyRules(w, Rules);
    PlaceholderFacts();
    assert w == P by {
      AbsentFirstChar(P, "\\");
      ReplaceAllAbsent(P, "\\", P);
    }
    assert e == P by {
      TargetsNotUpper(P);
      ApplyRulesAbsent(P, Rules);
    }
    assert ReplaceAll(P, P, BackslashCommand) == BackslashCommand + [] by {
      assert P[..|P|] == P && P[|P|..] == [];
    }
  }

  /** The intended escape leaves the placeholder text as it is. */
  lemma PlaceholderNeedsNoEscape()
    ensures MapConcat(Placeholder, EscapeChar) == Placeholder
  {
    PlaceholderFacts();
    MapConcatIdentity(Placeholder, EscapeChar);
  }

  /** The alternatives of the highlight pattern, as written in the pattern literal. */
  const HighlightNames: seq<string> :=
    ["Tzu-Ming Harry Hsu", "Tzu Ming Harry Hsu", "Tzu-Ming Hsu", "Tzu Ming Hsu", "Harry Hsu"]

  /** The replacement `\textbf{$1}`: the matched name inside `\textbf{…}`. */
  function Bold(name: string): string
  {
    "\\textbf{" + name + "}"
  }

  /** `highlightSelfInAuthors`: every whole-word spelling of the name wrapped in `\textbf{…}`. */
  function HighlightSelfInAuthors(authors: string): string
  {
    ReplaceWholeWords(authors, HighlightNames, Bold)
  }

  /** The highlight pattern lists the same spellings, in the same order, as the author
      helpers, so highlighting is emphasis with the bold formatter. */
  lemma HighlightIsEmphasis(authors: string)
    ensures HighlightNames == Authors.SelfAuthorVariants
    ensures HighlightSelfInAuthors(authors) == Authors.EmphasizeSelfAuthors(authors, Bold)
  {
  }

  /** The highlight test: the full name in a list comes out in bold, the rest unchanged. */
  lemma HighlightInList()
    ensures HighlightSelfInAuthors("Alice, " + "Tzu-Ming Harry Hsu" + ", Bob")
      == "Alice, " + Bold("Tzu-Ming Harry Hsu") + ", Bob"
  {
    var a, v, b := "Alice, ", "Tzu-Ming Harry Hsu", ", Bob";
    assert HighlightSelfInAuthors(a + v + b) == Authors.EmphasizeSelfAuthors(a + v + b, Bold) by {
      HighlightIsEmphasis(a + v + b);
    }
    assert Authors.EmphasizeSelfAuthors(a + v + b, Bold) == a + Bold(v) + b by {
      Authors.EmphasizeInList(Bold);
    }
  }

  /** The characters the spellings of the name are made of. */
  predicate IsNameChar(c: char)
  {
    ('a' <= c <= 'z') || ('A' <= c <= 'Z') || c == ' ' || c == '-'
  }

  /** Text of letters, spaces and hyphens with no `L` passes through the escape. */
  lemma EscapeNameChars(v: string)
    requires forall i :: 0 <= i < |v| ==> IsNameChar(v[i])
    requires 'L' !in v
    ensures EscapeLatex(v) == v
  {
    PlaceholderFacts();
    AbsentFirstChar(v, Placeholder);
    forall i | 0 <= i < |v| ensures !IsReserved(v[i]) {
    }
    EscapeLatexPlain(v);
  }

  /** Escaping leaves the spellings of the name alone, so escaping before highlighting (as the
      publication line does) still finds the name. */
  lemma EscapeKeepsNames(k: nat)
    requires k < |HighlightNames|
    ensures EscapeLatex(HighlightNames[k]) == HighlightNames[k]
  {
    var v := HighlightNames[k];
    assert forall i :: 0 <= i < |v| ==> IsNameChar(v[i]);
    assert 'L' !in v;
    EscapeNameChars(v);
  }
}
