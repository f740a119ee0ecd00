/**
 The key registry of a flattened record as text: the hash keys joined by newlines in one field of
 the root hash, split and trimmed again by the Go client and by the Lua guard.
 */
module RefHMapText {

  /** The two parsers trim different white space. */
  datatype Parser = Go | Lua

  predicate Space(parser: Parser, c: char) {
    || c in {' ', '\t', '\n', '\U{B}', '\U{C}', '\r'}
    || (parser == Go && (c in {'\U{85}', '\U{A0}', '\U{1680}', '\U{2028}', '\U{2029}', '\U{202F}', '\U{205F}',
                              '\U{3000}'}
                         || '\U{2000}' <= c <= '\U{200A}'))
  }

  function TrimLeft(parser: Parser, s: string): string {
    if s != "" && Space(parser, s[0]) then TrimLeft(parser, s[1..]) else s
  }

  function TrimRight(parser: Parser, s: string): string {
    if s != "" && Space(parser, s[|s| - 1]) then TrimRight(parser, s[..|s| - 1]) else s
  }

  function Trim(parser: Parser, s: string): string {
    TrimRight(parser, TrimLeft(parser, s))
  }

  /** The text between newlines; one line when there is none. */
  function Lines(s: string): (lines: seq<string>)
    ensures lines != []
  {
    if s == "" then [""]
    else if s[0] == '\n' then [""] + Lines(s[1..])
    else var rest := Lines(s[1..]); [[s[0]] + rest[0]] + rest[1..]
  }

  function Join(lines: seq<string>): string {
    if lines == [] then "" else if |lines| == 1 then lines[0] else lines[0] + "\n" + Join(lines[1..])
  }

  /** The trimmed lines that are not empty. */
  function Keys(parser: Parser, lines: seq<string>): seq<string> {
    if lines == [] then []
    else
      var key := Trim(parser, lines[0]);
      (if key == "" then [] else [key]) + Keys(parser, lines[1..])
  }

  function ParseKeys(parser: Parser, registry: string): seq<string> {
    Keys(parser, Lines(registry))
  }

  /** A key that survives joining and parsing: one line without white space at its ends. */
  predicate Clean(key: string) {
    key != "" && '\n' !in key && !Space(Go, key[0]) && !Space(Go, key[|key| - 1])
  }

  predicate AllClean(keys: seq<string>) {
    forall key | key in keys :: Clean(key)
  }

  lemma {:induction false} LinesSingle(s: string)
    requires '\n' !in s
    ensures Lines(s) == [s]
  {
    if s != "" {
      LinesSingle(s[1..]);
      assert [s[0]] + s[1..] == s;
    }
  }

  lemma {:induction false} LinesConcat(left: string, right: string)
    ensures Lines(left + "\n" + right) == Lines(left) + Lines(right)
  {
    var all := left + "\n" + right;
    if left == "" {
      assert all[1..] == right;
    } else {
      assert all[1..] == left[1..] + "\n" + right;
      LinesConcat(left[1..], right);
    }
  }

  lemma {:induction false} LinesJoin(lines: seq<string>)
    requires lines != [] && forall line | line in lines :: '\n' !in line
    ensures Lines(Join(lines)) == lines
  {
    if |lines| == 1 {
      LinesSingle(lines[0]);
    } else {
      LinesSingle(lines[0]);
      LinesConcat(lines[0], Join(lines[1..]));
      LinesJoin(lines[1..]);
    }
  }

  lemma {:induction false} LinesHaveNoNewline(s: string)
    ensures forall line | line in Lines(s) :: '\n' !in line
  {
    if s != "" {
      LinesHaveNoNewline(s[1..]);
      assert Lines(s[1..])[0] in Lines(s[1..]);
    }
  }

  /** Appending a line to a registry, as the patch script does. */
  lemma LinesAppend(registry: string, key: string)
    requires '\n' !in key
    ensures Lines(registry + "\n" + key) == Lines(registry) + [key]
  {
    LinesConcat(registry, key);
    LinesSingle(key);
  }

  lemma TrimClean(parser: Parser, key: string)
    requires Clean(key)
    ensures Trim(parser, key) == key
  {
  }

  lemma {:induction false} TrimIsTrimmed(s: string)
    ensures var t := Trim(Go, s);
            && (t != "" ==> !Space(Go, t[0]) && !Space(Go, t[|t| - 1]))
            && ('\n' !in s ==> '\n' !in t)
  {
    TrimLeftTrims(s);
    TrimRightTrims(TrimLeft(Go, s));
  }

  lemma {:induction false} TrimLeftTrims(s: string)
    ensures var t := TrimLeft(Go, s); (t != "" ==> !Space(Go, t[0])) && forall c | c in t :: c in s
  {
    if s != "" && Space(Go, s[0]) {
      TrimLeftTrims(s[1..]);
    }
  }

  lemma {:induction false} TrimRightTrims(s: string)
    ensures var t := TrimRight(Go, s);
            && (t != "" ==> s != "" && t[0] == s[0] && !Space(Go, t[|t| - 1]))
            && forall c | c in t :: c in s
  {
    if s != "" && Space(Go, s[|s| - 1]) {
      TrimRightTrims(s[..|s| - 1]);
    }
  }

  lemma {:induction false} KeysOfClean(parser: Parser, lines: seq<string>)
    requires AllClean(lines)
    ensures Keys(parser, lines) == lines
  {
    if lines != [] {
      TrimClean(parser, lines[0]);
      KeysOfClean(parser, lines[1..]);
    }
  }

  lemma {:induction false} KeysNotEmpty(parser: Parser, lines: seq<string>)
    ensures "" !in Keys(parser, lines)
  {
    if lines != [] {
      KeysNotEmpty(parser, lines[1..]);
    }
  }

  /** A clean line is one of the keys both parsers read, whatever the other lines are. */
  lemma {:induction false} CleanLineIsKey(parser: Parser, lines: seq<string>, key: string)
    requires Clean(key) && key in lines
    ensures key in Keys(parser, lines)
  {
    if lines[0] == key {
      TrimClean(parser, key);
    } else {
      CleanLineIsKey(parser, lines[1..], key);
    }
  }

  /** A key without a newline is a line of the joined keys, whatever the other keys are. */
  lemma {:induction false} JoinedLine(keys: seq<string>, key: string)
    requires key in keys && '\n' !in key
    ensures key in Lines(Join(keys))
  {
    LinesSingle(key);
    if |keys| > 1 {
      LinesConcat(keys[0], Join(keys[1..]));
      if keys[0] != key {
        JoinedLine(keys[1..], key);
      }
    }
  }

  lemma {:induction false} KeysAreClean(lines: seq<string>)
    requires forall line | line in lines :: '\n' !in line
    ensures AllClean(Keys(Go, lines))
  {
    if lines != [] {
      TrimIsTrimmed(lines[0]);
      KeysAreClean(lines[1..]);
    }
  }

  /** Both parsers read a registry of clean keys back as written. */
  lemma RegistryRoundTrip(parser: Parser, keys: seq<string>)
    requires AllClean(keys)
    ensures ParseKeys(parser, Join(keys)) == keys
  {
    if keys == [] {
      assert Lines("") == [""];
    } else {
      LinesJoin(keys);
      KeysOfClean(parser, keys);
    }
  }

  /** A layout's registry is read back exactly when all of its keys are clean. */
  lemma RegistryRoundTripExactly(keys: seq<string>)
    ensures ParseKeys(Go, Join(keys)) == keys <==> AllClean(keys)
  {
    LinesHaveNoNewline(Join(keys));
    KeysAreClean(Lines(Join(keys)));
    if AllClean(keys) {
      RegistryRoundTrip(Go, keys);
    }
  }

  // ---------------------------------------------------------------- the membership test of the patch script

  /** A plain substring search. */
  ghost predicate Contains(text: string, part: string) {
    exists before, after :: text == before + part + after
  }

  lemma {:induction false} JoinLines(s: string)
    ensures Join(Lines(s)) == s
  {
    if s != "" {
      JoinLines(s[1..]);
      var rest := Lines(s[1..]);
      if s[0] == '\n' {
        assert Lines(s)[1..] == rest;
      } else {
        assert Lines(s)[1..] == rest[1..];
        assert |rest| > 1 ==> Join(Lines(s)) == [s[0]] + (rest[0] + "\n" + Join(rest[1..]));
      }
    }
  }

  /** Searching the newline-wrapped registry for the newline-wrapped key finds exactly its lines. */
  lemma SearchFindsLines(registry: string, key: string)
    requires '\n' !in key
    ensures Contains("\n" + registry + "\n", "\n" + key + "\n") <==> key in Lines(registry)
  {
    if before, after :| "\n" + registry + "\n" == before + ("\n" + key + "\n") + after {
      FoundIsLine(registry, key, before, after);
    }
    if key in Lines(registry) {
      var lines := Lines(registry);
      var i :| 0 <= i < |lines| && lines[i] == key;
      JoinLines(registry);
      SearchSplits(lines, i);
    }
  }

  lemma FoundIsLine(registry: string, key: string, before: string, after: string)
    requires '\n' !in key && "\n" + registry + "\n" == before + ("\n" + key + "\n") + after
    ensures key in Lines(registry)
  {
    WrappedLines(registry);
    LinesAround(before, key, after);
    assert before + ("\n" + key + "\n") + after == before + "\n" + key + "\n" + after;
    MiddleLine(Lines(registry), Lines(before), key, Lines(after));
  }

  lemma MiddleLine(lines: seq<string>, before: seq<string>, key: string, after: seq<string>)
    requires [""] + lines + [""] == before + [key] + after && before != [] && after != []
    ensures key in lines
  {
    assert ([""] + lines + [""])[|before|] == key;
    assert lines[|before| - 1] == key;
  }

  lemma WrappedLines(registry: string)
    ensures Lines("\n" + registry + "\n") == [""] + Lines(registry) + [""]
  {
    LinesConcat("\n" + registry, "");
    LinesConcat("", registry);
    assert "\n" + registry + "\n" + "" == "\n" + registry + "\n";
    assert "" + "\n" + registry == "\n" + registry;
  }

  lemma LinesAround(before: string, key: string, after: string)
    requires '\n' !in key
    ensures Lines(before + "\n" + key + "\n" + after) == Lines(before) + [key] + Lines(after)
  {
    LinesConcat(before + "\n" + key, after);
    LinesAppend(before, key);
  }

  lemma {:induction false} SearchSplits(lines: seq<string>, i: nat)
    requires i < |lines|
    ensures Contains("\n" + Join(lines) + "\n", "\n" + lines[i] + "\n")
    decreases i
  {
    var text := "\n" + Join(lines) + "\n";
    if i == 0 {
      var after := if |lines| == 1 then "" else Join(lines[1..]) + "\n";
      assert text == "" + ("\n" + lines[0] + "\n") + after;
    } else {
      SearchSplits(lines[1..], i - 1);
      var part := "\n" + lines[i] + "\n";
      var before, after :| "\n" + Join(lines[1..]) + "\n" == before + part + after;
      assert text == "\n" + lines[0] + ("\n" + Join(lines[1..]) + "\n");
      assert text == ("\n" + lines[0] + before) + part + after;
    }
  }
}
