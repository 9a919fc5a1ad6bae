/**
 The input side of the REPL in main.go: normalising a line (`cleanInput`),
 the table of command names, and splitting a cleaned line into a command name
 and its single optional argument.
 */
module Repl {
  import opened Text

  datatype Option<T> = None | Some(value: T)

  /**
   `cleanInput`: lower-case, then split into fields. The empty line is
   answered early with the empty list, which is also what splitting it gives.
   */
  function CleanInput(text: string): (words: seq<string>)
    ensures text == "" ==> words == []
    ensures words == [] <==> AllSpace(text)
    ensures AllWords(words)
    ensures forall i :: 0 <= i < |words| ==> NoUpper(words[i])
  {
    if text == "" then []
    else
      FieldsNoUpper(ToLower(text));
      FieldsEmptyIff(ToLower(text));
      AllSpaceToLower(text);
      Fields(ToLower(text))
  }

  /** Lower-casing distributes over concatenation. */
  lemma ToLowerAppend(a: string, b: string)
    ensures ToLower(a + b) == ToLower(a) + ToLower(b)
  {
  }

  /** Lower-casing keeps a white-space string white space. */
  lemma ToLowerAllSpace(s: string)
    requires AllSpace(s)
    ensures AllSpace(ToLower(s))
  {
    AllSpaceToLower(s);
  }

  /** The words are the same whether or not the line was lower-cased first. */
  lemma CleanInputIgnoresCase(text: string)
    ensures CleanInput(ToLower(text)) == CleanInput(text)
  {
    ToLowerNoUpper(text);
    ToLowerNoUpperIdentity(ToLower(text));
  }

  /**
   A run of white space splits the line: the words on each side are kept, in
   input order, and the run itself, however long, is discarded.
   */
  lemma CleanInputSplit(a: string, sep: string, b: string)
    requires sep != [] && AllSpace(sep)
    ensures CleanInput(a + sep + b) == CleanInput(a) + CleanInput(b)
  {
    ToLowerAppend(a + sep, b);
    ToLowerAppend(a, sep);
    ToLowerAllSpace(sep);
    FieldsSplit(ToLower(a), ToLower(sep), ToLower(b));
  }

  /** Leading and trailing white space is discarded. */
  lemma CleanInputTrim(p: string, s: string, q: string)
    requires AllSpace(p) && AllSpace(q)
    ensures CleanInput(p + s + q) == CleanInput(s)
  {
    ToLowerAppend(p + s, q);
    ToLowerAppend(p, s);
    ToLowerAllSpace(p);
    ToLowerAllSpace(q);
    FieldsDropTrailing(ToLower(p) + ToLower(s), ToLower(q));
    FieldsDropLeading(ToLower(p), ToLower(s));
  }

  /** Lower-case words joined by single spaces clean back to themselves. */
  lemma CleanInputUnwords(ws: seq<string>)
    requires AllWords(ws)
    requires forall i :: 0 <= i < |ws| ==> NoUpper(ws[i])
    ensures CleanInput(Unwords(ws)) == ws
  {
    UnwordsNoUpper(ws);
    ToLowerNoUpperIdentity(Unwords(ws));
    FieldsUnwords(ws);
  }

  lemma {:induction false} UnwordsNoUpper(ws: seq<string>)
    requires forall i :: 0 <= i < |ws| ==> NoUpper(ws[i])
    ensures NoUpper(Unwords(ws))
    decreases |ws|
  {
    if |ws| > 1 {
      UnwordsNoUpper(ws[1..]);
      assert NoUpper(ws[0]);
      var u := Unwords(ws);
      assert u == ws[0] + " " + Unwords(ws[1..]);
      forall i | 0 <= i < |u| ensures !IsUpper(u[i]) {
        if i < |ws[0]| {
          assert u[i] == ws[0][i];
        } else if i > |ws[0]| {
          assert u[i] == Unwords(ws[1..])[i - |ws[0]| - 1];
        }
      }
    }
  }

  /** Leading white space is discarded. */
  lemma CleanInputTrimLeading(p: string, s: string)
    requires AllSpace(p)
    ensures CleanInput(p + s) == CleanInput(s)
  {
    CleanInputTrim(p, s, []);
    assert p + s + [] == p + s;
    assert CleanInput(s) + CleanInput([]) == CleanInput(s);
  }

  /** Two lower-case words with surrounding and doubled spaces clean to those words. */
  lemma CleanInputSpaced(w1: string, w2: string)
    requires IsWord(w1) && NoUpper(w1) && IsWord(w2) && NoUpper(w2)
    ensures CleanInput("  " + (w1 + "  " + w2) + "  ") == [w1, w2]
  {
    CleanInputTrim("  ", w1 + "  " + w2, "  ");
    CleanInputSplit(w1, "  ", w2);
    CleanInputUnwords([w1]);
    CleanInputUnwords([w2]);
  }

  function LowerEach(ws: seq<string>): (r: seq<string>)
    ensures |r| == |ws| && forall i :: 0 <= i < |ws| ==> r[i] == ToLower(ws[i])
  {
    seq(|ws|, i requires 0 <= i < |ws| => ToLower(ws[i]))
  }

  lemma {:induction false} ToLowerUnwords(ws: seq<string>)
    ensures ToLower(Unwords(ws)) == Unwords(LowerEach(ws))
    decreases |ws|
  {
    if |ws| > 1 {
      ToLowerUnwords(ws[1..]);
      assert LowerEach(ws)[1..] == LowerEach(ws[1..]);
      ToLowerAppend(ws[0] + " ", Unwords(ws[1..]));
      ToLowerAppend(ws[0], " ");
      assert ToLower(" ") == " ";
    }
  }

  /** Words joined by single spaces clean to the lower-cased words. */
  lemma CleanInputLowersWords(ws: seq<string>)
    requires AllWords(ws)
    ensures CleanInput(Unwords(ws)) == LowerEach(ws)
  {
    var lowered := LowerEach(ws);
    forall i | 0 <= i < |lowered| ensures IsWord(lowered[i]) && NoUpper(lowered[i]) {
      ToLowerNoUpper(ws[i]);
    }
    ToLowerUnwords(ws);
    CleanInputIgnoresCase(Unwords(ws));
    CleanInputUnwords(lowered);
  }

  /** A lower-case word cleans to itself. */
  lemma CleanInputWord(w: string)
    requires IsWord(w) && NoUpper(w)
    ensures CleanInput(w) == [w]
  {
    CleanInputUnwords([w]);
  }

  /** Three lower-case words with leading and repeated spaces clean to those words. */
  lemma CleanInputLeadingSpaces(w1: string, w2: string, w3: string)
    requires IsWord(w1) && NoUpper(w1) && IsWord(w2) && NoUpper(w2) && IsWord(w3) && NoUpper(w3)
    ensures CleanInput("  " + (w1 + "   " + w2 + "   " + w3)) == [w1, w2, w3]
  {
    var sep := "   ";
    var front := w1 + sep + w2;
    var all := front + sep + w3;
    assert AllSpace(sep);
    assert CleanInput(front) == [w1, w2] by {
      CleanInputSplit(w1, sep, w2);
      CleanInputWord(w1);
      CleanInputWord(w2);
    }
    assert CleanInput(all) == [w1, w2, w3] by {
      CleanInputSplit(front, sep, w3);
      CleanInputWord(w3);
    }
    CleanInputTrimLeading("  ", all);
  }

  /** First case of repl_test.go. */
  lemma CleanInputExampleSpaced()
    ensures CleanInput("  " + ("hello" + "  " + "world") + "  ") == ["hello", "world"]
  {
    CleanInputSpaced("hello", "world");
  }

  /** Second case of repl_test.go. */
  lemma CleanInputExampleCapitals()
    ensures CleanInput("Charmander" + " " + ("Bulbasaur" + " " + "PIKACHU")) == ["charmander", "bulbasaur", "pikachu"]
  {
    var ws := ["Charmander", "Bulbasaur", "PIKACHU"];
    assert AllWords(ws);
    CleanInputLowersWords(ws);
    assert LowerEach(ws) == ["charmander", "bulbasaur", "pikachu"] by {
      assert ToLower("Charmander") == "charmander";
      assert ToLower("Bulbasaur") == "bulbasaur";
      assert ToLower("PIKACHU") == "pikachu";
    }
    assert Unwords(ws) == "Charmander" + " " + ("Bulbasaur" + " " + "PIKACHU") by {
      assert ws[1..] == ["Bulbasaur", "PIKACHU"];
      assert ws[1..][1..] == ["PIKACHU"];
    }
  }

  /** Third case of repl_test.go. */
  lemma CleanInputExampleDigits()
    ensures CleanInput("  " + ("12" + "   " + "333" + "   " + "456")) == ["12", "333", "456"]
  {
    CleanInputLeadingSpaces("12", "333", "456");
  }

  // ---------------------------------------------------------------------------
  // Command table and dispatch
  // ---------------------------------------------------------------------------

  /** The entries of the `commands` table. */
  datatype Command = Map | MapBack | Explore | Catch | Inspect | Pokedex | Help | Exit

  function CommandName(c: Command): string {
    match c
    case Map => "map"
    case MapBack => "mapb"
    case Explore => "explore"
    case Catch => "catch"
    case Inspect => "inspect"
    case Pokedex => "pokedex"
    case Help => "help"
    case Exit => "exit"
  }

  /** `commands[name]`; `None` is the "Unknown command" branch. */
  function LookupCommand(name: string): (r: Option<Command>)
    ensures r.Some? ==> CommandName(r.value) == name
    ensures forall c :: CommandName(c) == name ==> r == Some(c)
  {
    if name == "map" then Some(Map)
    else if name == "mapb" then Some(MapBack)
    else if name == "explore" then Some(Explore)
    else if name == "catch" then Some(Catch)
    else if name == "inspect" then Some(Inspect)
    else if name == "pokedex" then Some(Pokedex)
    else if name == "help" then Some(Help)
    else if name == "exit" then Some(Exit)
    else None
  }

  /** A command name with the one argument handed to its callback. */
  datatype Invocation = Invocation(command: string, arg: string)

  /**
   The first word names the command, the second (if any) is the argument and
   any further words are ignored. The Go code indexes the first word without a
   guard, so a line without words is outside what it handles.
   */
  function SplitCommand(cleaned: seq<string>): (inv: Invocation)
    requires |cleaned| > 0
    ensures inv.command == cleaned[0]
    ensures |cleaned| > 1 ==> inv.arg == cleaned[1]
    ensures |cleaned| == 1 ==> inv.arg == ""
  {
    Invocation(cleaned[0], if |cleaned| > 1 then cleaned[1] else "")
  }

  /**
   For cleaned input, the argument is empty exactly when the line had a single
   word: that is what the callbacks' `== ""` checks detect.
   */
  lemma ArgMissingIffOneWord(text: string)
    requires !AllSpace(text)
    ensures SplitCommand(CleanInput(text)).arg == "" <==> |CleanInput(text)| == 1
  {
  }

  /** A line of lower-case words parses to its first two words. */
  lemma ParseLine(command: string, arg: string, rest: seq<string>)
    requires AllWords([command, arg] + rest)
    requires forall i :: 0 <= i < |[command, arg] + rest| ==> NoUpper(([command, arg] + rest)[i])
    ensures SplitCommand(CleanInput(Unwords([command, arg] + rest))) == Invocation(command, arg)
  {
    CleanInputUnwords([command, arg] + rest);
  }
}
