/** UpsertTOML of internal/config/tomlwrite.go as a text-to-text function, and the
    laws it keeps with the parser. */
module TomlUpsert {
  import opened Results
  import opened Ordering
  import opened Joining
  import opened GoText
  import opened TomlSyntax
  import opened TomlFile
  import TomlGrammar

  // -------------------------------------------------------------- the rewriting

  /** The key a line sets as the rewriter sees it: blank lines, comments and lines
      without '=' set none. */
  function KeyOfLine(raw: string): Option<string> {
    var line := TrimSpace(raw);
    if line == "" || line[0] == '#' then None
    else
      match CutAt(line, '=')
      case None => None
      case Some((k, _)) => Some(TrimSpace(k))
  }

  type Owned = map<string, string>

  predicate Owns(owned: Owned, raw: string) {
    KeyOfLine(raw).Some? && KeyOfLine(raw).value in owned
  }

  function Rendered(owned: Owned, key: string): string
    requires key in owned
  {
    key + " = " + owned[key]
  }

  /** The owned keys that lines set. */
  function WrittenIn(owned: Owned, lines: seq<string>): set<string> {
    if lines == [] then {}
    else
      var raw := lines[|lines| - 1];
      WrittenIn(owned, lines[..|lines| - 1]) + (if Owns(owned, raw) then {KeyOfLine(raw).value} else {})
  }

  /** What becomes of one line: kept, rewritten, or dropped as a duplicate. */
  function Rewrite(owned: Owned, written: set<string>, raw: string): seq<string> {
    if !Owns(owned, raw) then [raw]
    else if KeyOfLine(raw).value in written then []
    else [Rendered(owned, KeyOfLine(raw).value)]
  }

  function Kept(owned: Owned, lines: seq<string>): seq<string> {
    if lines == [] then []
    else
      var init := lines[..|lines| - 1];
      Kept(owned, init) + Rewrite(owned, WrittenIn(owned, init), lines[|lines| - 1])
  }

  /** Lines for the keys, one each. */
  function RenderedAll(owned: Owned, keys: seq<string>): seq<string>
    requires forall k :: k in keys ==> k in owned
  {
    if keys == [] then []
    else RenderedAll(owned, keys[..|keys| - 1]) + [Rendered(owned, keys[|keys| - 1])]
  }

  /** An absent or empty file has no lines; otherwise trailing newlines are dropped
      before splitting. */
  function OldLines(text: string): seq<string> {
    if text == "" then [] else Split(TrimNewlines(text))
  }

  ghost function Missing(owned: Owned, text: string): seq<string> {
    SortedNames(owned.Keys - WrittenIn(owned, OldLines(text)))
  }

  lemma MissingAreOwned(owned: Owned, text: string)
    ensures forall k :: k in Missing(owned, text) ==> k in owned
  {
    forall k | k in Missing(owned, text) ensures k in owned { assert k in Elements(Missing(owned, text)); }
  }

  ghost function NewLines(owned: Owned, text: string): seq<string> {
    MissingAreOwned(owned, text);
    Kept(owned, OldLines(text)) + RenderedAll(owned, Missing(owned, text))
  }

  ghost function Upserted(owned: Owned, text: string): string {
    Join(NewLines(owned, text), '\n') + ['\n']
  }

  // -------------------------------------------------------------- the settings

  function Render(v: Value): string
    requires v.Str? || v.List?
  {
    if v.Str? then QuoteTOML(v.s) else QuoteTOMLList(v.l)
  }

  datatype UpsertError = MalformedKey(key: string) | BothKinds(key: string)

  ghost predicate Writable(strs: map<string, string>, lists: map<string, seq<string>>) {
    && (forall k :: k in strs || k in lists ==> IsBareKey(k))
    && strs.Keys !! lists.Keys
  }

  /** Some key, whichever the map walks meet first, is not bare or set both ways. */
  ghost predicate Blamed(strs: map<string, string>, lists: map<string, seq<string>>, fault: UpsertError) {
    match fault
    case MalformedKey(k) => (k in strs || k in lists) && !IsBareKey(k)
    case BothKinds(k) => k in strs && k in lists && IsBareKey(k)
  }

  /** The settings of one call. */
  function Settings(strs: map<string, string>, lists: map<string, seq<string>>): map<string, Value> {
    map k | k in strs.Keys + lists.Keys :: if k in strs then Str(strs[k]) else List(lists[k])
  }

  function RenderedSettings(settings: map<string, Value>): Owned
    requires forall k :: k in settings ==> settings[k].Str? || settings[k].List?
  {
    map k | k in settings :: Render(settings[k])
  }

  // ------------------------------------------------ a rendered line reads back

  ghost predicate OneLineValue(v: Value) {
    match v
    case Str(s) => OneLine(s)
    case Num(_) => true
    case List(l) => Lines(l)
  }

  /** What a caller may set: bare keys, strings or lists as the key wants them,
      no newline in a value. */
  ghost predicate Settable(settings: map<string, Value>) {
    forall k :: k in settings ==> SettableAt(k, settings[k])
  }

  ghost predicate SettableAt(k: string, v: Value) {
    && IsBareKey(k) && (v.Str? || v.List?) && OneLineValue(v)
    && (KindOf(k).Some? ==> HasKind(v, KindOf(k).value))
  }

  lemma {:induction false} TrimmedStays(s: string)
    requires Trimmed(s)
    ensures TrimSpace(s) == s
  {}

  lemma TrimOuter(s: string)
    requires s != "" && Trimmed(s)
    ensures TrimSpace(s + " ") == s && TrimSpace(" " + s) == s
  {
    assert (s + " ")[0] == s[0];
    assert (s + " ")[..|s + " "| - 1] == s;
    assert (" " + s)[1..] == s;
    TrimmedStays(s);
  }

  lemma {:induction false} CutAtFirst(a: string, c: char, b: string)
    requires Free(c, a)
    ensures CutAt(a + [c] + b, c) == Some((a, b))
  {
    var s := a + [c] + b;
    if a == "" {
      assert s[1..] == b;
    } else {
      CutAtFirst(a[1..], c, b);
      assert s[1..] == a[1..] + [c] + b;
      assert a == [a[0]] + a[1..];
    }
  }

  lemma RenderTrimmed(v: Value)
    requires v.Str? || v.List?
    ensures Render(v) != "" && Trimmed(Render(v))
    ensures if v.Str? then Render(v)[0] == '"' else Render(v)[0] == '['
  {}

  lemma RenderReadsBack(v: Value)
    requires v.Str? || v.List?
    ensures ParsedValue(Render(v)) == Ok(v)
  {
    RenderTrimmed(v);
    TrimmedStays(Render(v));
    if v.Str? {
      QuotedRoundTrip(v.s, "");
      assert QuoteTOML(v.s) + "" == QuoteTOML(v.s);
    } else {
      ListRoundTrip(v.l);
    }
  }

  lemma LineSplits(key: string, rhs: string)
    requires IsBareKey(key) && rhs != "" && Trimmed(rhs)
    ensures var line := key + " = " + rhs;
            && line != "" && IsBareChar(line[0]) && TrimSpace(line) == line
            && CutAt(line, '=') == Some((key + " ", " " + rhs)) && TrimSpace(key + " ") == key
  {
    var line := key + " = " + rhs;
    assert line[0] == key[0] && line[|line| - 1] == rhs[|rhs| - 1];
    assert IsBareChar(key[0]) && IsBareChar(key[|key| - 1]);
    TrimmedStays(line);
    assert line == key + " " + ['='] + (" " + rhs);
    forall i | 0 <= i < |key| ensures key[i] != '=' { assert IsBareChar(key[i]); }
    CutAtFirst(key + " ", '=', " " + rhs);
    TrimOuter(key);
  }

  lemma ValueAfterBlank(rhs: string)
    requires rhs != "" && Trimmed(rhs)
    ensures ParsedValue(" " + rhs) == ParsedValue(rhs)
  {
    TrimOuter(rhs);
    TrimmedStays(rhs);
  }

  lemma LineReads(key: string, rhs: string, v: Value)
    requires IsBareKey(key) && rhs != "" && Trimmed(rhs) && ParsedValue(" " + rhs) == Ok(v)
    ensures ParsedLine(key + " = " + rhs) == Setting(key, v)
    ensures KeyOfLine(key + " = " + rhs) == Some(key)
  {
    LineSplits(key, rhs);
  }

  /** The printed line is read as the setting it prints, by parser and rewriter. */
  lemma RenderedLineReadsBack(key: string, v: Value)
    requires IsBareKey(key) && (v.Str? || v.List?)
    ensures ParsedLine(key + " = " + Render(v)) == Setting(key, v)
    ensures KeyOfLine(key + " = " + Render(v)) == Some(key)
  {
    RenderTrimmed(v);
    RenderReadsBack(v);
    ValueAfterBlank(Render(v));
    LineReads(key, Render(v), v);
  }

  lemma {:induction false} EscapeOneLine(s: string)
    requires OneLine(s)
    ensures OneLine(QuoteTOML(s))
  {
    TwoReplacementsEscape(s);
    EscapeFree(s);
  }

  lemma {:induction false} EscapeFree(s: string)
    requires OneLine(s)
    ensures OneLine(Escape(s))
  {
    if s != "" {
      assert s[0] in s && forall c :: c in s[1..] ==> c in s;
      EscapeFree(s[1..]);
    }
  }

  lemma {:induction false} ListOneLine(l: seq<string>)
    requires Lines(l)
    ensures OneLine(JoinComma(Quoted(l)))
  {
    if l != [] {
      assert l[0] in l && forall s :: s in l[1..] ==> s in l;
      EscapeOneLine(l[0]);
      ListOneLine(l[1..]);
      assert Quoted(l)[1..] == Quoted(l[1..]);
    }
  }

  lemma RenderedOneLine(key: string, v: Value)
    requires SettableAt(key, v)
    ensures OneLine(key + " = " + Render(v))
  {
    if v.Str? { EscapeOneLine(v.s); } else { ListOneLine(v.l); }
    forall i | 0 <= i < |key| ensures key[i] != '\n' { assert IsBareChar(key[i]); }
  }

  // ------------------------------------------------------------- the lens law

  /** t' is t with the settings in `written` made and no other owned one left. */
  ghost predicate Overridden(settings: map<string, Value>, t: Toml, t': Toml, written: set<string>) {
    && (forall k :: k !in settings ==> (k in t'.layer <==> k in t.layer))
    && (forall k :: k !in settings && k in t.layer && k in t'.layer ==> t'.layer[k] == t.layer[k])
    && (forall k :: k in settings ==> (k in t'.layer <==> k in written && KindOf(k).Some?))
    && (forall k :: k in settings && k in t'.layer ==> t'.layer[k] == settings[k])
    && (AllRecognized(settings) ==> t'.ignored == t.ignored)
  }

  ghost predicate AllRecognized(settings: map<string, Value>) {
    forall k :: k in settings ==> KindOf(k).Some?
  }

  lemma ParsedAppend(lines: seq<string>, raw: string)
    requires ParsedLines(lines).Ok?
    ensures ParsedLines(lines + [raw]) ==
      match ApplyLine(ParsedLines(lines).value, raw)
      case Err(e) => Err(TomlFile.FileError(|lines| + 1, e))
      case Ok(t) => Ok(t)
  {
    assert (lines + [raw])[..|lines|] == lines;
  }

  /** Parser and rewriter agree on a good line's key. */
  lemma KeysAgree(raw: string)
    requires !ParsedLine(raw).Bad?
    ensures KeyOfLine(raw) == if ParsedLine(raw).Blank? then None else Some(ParsedLine(raw).key)
  {}

  ghost predicate KeyCut(raw: string, key: string, left: string, right: string) {
    TomlGrammar.Cuts(raw, left, right) && TomlGrammar.Padded(left, key)
  }

  /** The line names key before its first '=', and is no comment. */
  ghost predicate Names(raw: string, key: string) {
    !TomlGrammar.Remark(raw) && exists left, right :: KeyCut(raw, key, left, right)
  }

  /** The rewriter sees exactly that key. */
  lemma KeySeen(raw: string, key: string)
    ensures KeyOfLine(raw) == Some(key) <==> Names(raw, key)
  {
    TrimSpaceCuts(raw);
    var i, j :| Trims(raw, i, j) && TrimSpace(raw) == raw[i..j];
    TomlGrammar.RemarkOfTrimmed(raw, i, j);
    TomlGrammar.NoCutOfTrimmed(raw);
    if '=' in raw {
      CutAtCuts(raw, '=');
      var (a, b) := CutAt(raw, '=').value;
      assert TomlGrammar.Cuts(raw, a, b);
      KeyCutIs(raw, key, a, b, i, j);
      if Names(raw, key) {
        var left, right :| KeyCut(raw, key, left, right);
        KeyCutIs(raw, key, left, right, i, j);
      }
    }
  }

  lemma KeyCutIs(raw: string, key: string, left: string, right: string, i: nat, j: nat)
    requires Trims(raw, i, j) && TomlGrammar.Cuts(raw, left, right)
    ensures var cut := CutAt(raw[i..j], '=');
            cut.Some? && (TrimSpace(cut.value.0) == key <==> KeyCut(raw, key, left, right))
  {
    TomlGrammar.CutInside(raw, left, right, i, j);
    TomlGrammar.PaddedIsTrimmed(left, key);
  }

  lemma OverrideStep(settings: map<string, Value>, t: Toml, t': Toml, written: set<string>, raw: string)
    requires Settable(settings) && Overridden(settings, t, t', written)
    requires ApplyLine(t, raw).Ok?
    ensures !Owns(RenderedSettings(settings), raw) ==>
      ApplyLine(t', raw).Ok? && Overridden(settings, ApplyLine(t, raw).value, ApplyLine(t', raw).value, written)
    ensures Owns(RenderedSettings(settings), raw) && KeyOfLine(raw).value in written ==>
      Overridden(settings, ApplyLine(t, raw).value, t', written)
  {
    KeysAgree(raw);
  }

  lemma MakeSetting(settings: map<string, Value>, t: Toml, t': Toml, written: set<string>, key: string)
    requires Settable(settings) && Overridden(settings, t, t', written) && key in settings
    ensures var r := ApplyLine(t', Rendered(RenderedSettings(settings), key));
            r.Ok? && Overridden(settings, t, r.value, written + {key})
  {
    assert SettableAt(key, settings[key]);
    RenderedLineReadsBack(key, settings[key]);
  }

  lemma IgnoredOwnedLine(settings: map<string, Value>, t: Toml, t': Toml, written: set<string>, raw: string)
    requires Settable(settings) && Overridden(settings, t, t', written)
    requires Owns(RenderedSettings(settings), raw) && ApplyLine(t, raw).Ok?
    ensures Overridden(settings, ApplyLine(t, raw).value, t', written)
  {
    KeysAgree(raw);
  }

  /** Rewriting a file that parses leaves one that parses, overridden where lines
      were owned. */
  lemma {:induction false} KeptParses(settings: map<string, Value>, lines: seq<string>)
    requires Settable(settings) && ParsedLines(lines).Ok?
    ensures var owned := RenderedSettings(settings);
            var r := ParsedLines(Kept(owned, lines));
            r.Ok? && Overridden(settings, ParsedLines(lines).value, r.value, WrittenIn(owned, lines))
  {
    if lines != [] {
      var owned := RenderedSettings(settings);
      var init, raw := lines[..|lines| - 1], lines[|lines| - 1];
      KeptParses(settings, init);
      var t, kept, written := ParsedLines(init).value, Kept(owned, init), WrittenIn(owned, init);
      var t' := ParsedLines(kept).value;
      if !Owns(owned, raw) {
        OverrideStep(settings, t, t', written, raw);
        ParsedAppend(kept, raw);
      } else {
        IgnoredOwnedLine(settings, t, t', written, raw);
        var key := KeyOfLine(raw).value;
        if key in written {
          assert Kept(owned, lines) == kept;
          assert written + {key} == written;
        } else {
          MakeSetting(settings, ApplyLine(t, raw).value, t', written, key);
          ParsedAppend(kept, Rendered(owned, key));
        }
      }
    }
  }

  lemma {:induction false} RenderedParse(settings: map<string, Value>, t: Toml, base: seq<string>,
                                         written: set<string>, keys: seq<string>)
    requires Settable(settings) && forall k :: k in keys ==> k in settings
    requires ParsedLines(base).Ok? && Overridden(settings, t, ParsedLines(base).value, written)
    ensures var r := ParsedLines(base + RenderedAll(RenderedSettings(settings), keys));
            r.Ok? && Overridden(settings, t, r.value, written + Elements(keys))
  {
    var owned := RenderedSettings(settings);
    if keys == [] {
      assert base + RenderedAll(owned, keys) == base;
      assert written + Elements(keys) == written;
    } else {
      var init, key := keys[..|keys| - 1], keys[|keys| - 1];
      ElementsLast(written, keys);
      RenderedParse(settings, t, base, written, init);
      var lines := base + RenderedAll(owned, init);
      MakeSetting(settings, t, ParsedLines(lines).value, written + Elements(init), key);
      ParsedAppend(lines, Rendered(owned, key));
      AppendAssoc(base, RenderedAll(owned, init), Rendered(owned, key));
    }
  }

  lemma {:induction false} EmptiesDoNothing(lines: seq<string>, n: nat)
    ensures ParsedLines(lines + Empties(n)).Ok? <==> ParsedLines(lines).Ok?
    ensures ParsedLines(lines).Ok? ==> ParsedLines(lines + Empties(n)) == ParsedLines(lines)
  {
    var all := lines + Empties(n);
    if n == 0 {
      assert all == lines;
    } else {
      EmptiesDoNothing(lines, n - 1);
      assert all[..|all| - 1] == lines + Empties(n - 1);
      assert all[|all| - 1] == "";
    }
  }

  lemma OldLinesParse(text: string)
    ensures Parsed(text).Ok? <==> ParsedLines(OldLines(text)).Ok?
    ensures Parsed(text).Ok? ==> Parsed(text) == ParsedLines(OldLines(text))
  {
    if text == "" {
      assert Split(text) == [] + Empties(1);
      EmptiesDoNothing([], 1);
    } else {
      var n := SplitOfTrimmed(text);
      EmptiesDoNothing(Split(TrimNewlines(text)), n);
    }
  }

  // ------------------------------------------------------------- the new lines

  lemma {:induction false} KeptAreLines(settings: map<string, Value>, lines: seq<string>)
    requires Settable(settings) && Lines(lines)
    ensures Lines(Kept(RenderedSettings(settings), lines))
  {
    if lines != [] {
      var owned := RenderedSettings(settings);
      var init, raw := lines[..|lines| - 1], lines[|lines| - 1];
      assert raw in lines && forall l :: l in init ==> l in lines;
      KeptAreLines(settings, init);
      if Owns(owned, raw) {
        var key := KeyOfLine(raw).value;
        assert SettableAt(key, settings[key]);
        RenderedOneLine(key, settings[key]);
      }
    }
  }

  lemma {:induction false} RenderedAreLines(settings: map<string, Value>, keys: seq<string>)
    requires Settable(settings) && forall k :: k in keys ==> k in settings
    ensures Lines(RenderedAll(RenderedSettings(settings), keys))
  {
    if keys != [] {
      var key := keys[|keys| - 1];
      RenderedAreLines(settings, keys[..|keys| - 1]);
      assert SettableAt(key, settings[key]);
      RenderedOneLine(key, settings[key]);
    }
  }

  lemma NewLinesAreLines(settings: map<string, Value>, text: string)
    requires Settable(settings)
    ensures Lines(NewLines(RenderedSettings(settings), text))
  {
    var owned := RenderedSettings(settings);
    SplitGivesLines(TrimNewlines(text));
    KeptAreLines(settings, OldLines(text));
    MissingAreOwned(owned, text);
    RenderedAreLines(settings, Missing(owned, text));
  }

  /** Re-splitting the written text gives the new lines and one empty line (two if
      there are no lines at all). */
  lemma SplitOfUpserted(settings: map<string, Value>, text: string) returns (n: nat)
    requires Settable(settings)
    ensures n > 0
    ensures Split(Upserted(RenderedSettings(settings), text))
         == NewLines(RenderedSettings(settings), text) + Empties(n)
  {
    var ls := NewLines(RenderedSettings(settings), text);
    NewLinesAreLines(settings, text);
    SplitOfTrailingNewline(Join(ls, '\n'));
    if ls == [] {
      n := 2;
      assert Empties(2) == [""] + [""];
      assert ls + Empties(2) == Empties(2);
    } else {
      n := 1;
      SplitOfJoin(ls);
      assert Empties(1) == [""];
    }
  }

  // -------------------------------------------------------------- main results

  function Recognized(settings: map<string, Value>): map<string, Value> {
    map k | k in settings && KindOf(k).Some? :: settings[k]
  }

  /** t' is t overridden by exactly the settings that are recognized. */
  ghost predicate Put(settings: map<string, Value>, t: Toml, t': Toml) {
    && t'.layer == t.layer + Recognized(settings)
    && (AllRecognized(settings) ==> t'.ignored == t.ignored)
  }

  lemma OverriddenByAll(settings: map<string, Value>, t: Toml, t': Toml)
    requires Settable(settings) && Overridden(settings, t, t', settings.Keys)
    requires forall k :: k in t.layer ==> KindOf(k).Some?
    ensures Put(settings, t, t')
  {
    var expected := t.layer + Recognized(settings);
    forall k ensures k in t'.layer <==> k in expected {}
    forall k | k in t'.layer ensures t'.layer[k] == expected[k] {}
  }

  lemma {:induction false} LayersAreRecognized(lines: seq<string>)
    requires ParsedLines(lines).Ok?
    ensures forall k :: k in ParsedLines(lines).value.layer ==> KindOf(k).Some?
  {
    if lines != [] { LayersAreRecognized(lines[..|lines| - 1]); }
  }

  lemma {:induction false} WrittenAreOwned(owned: Owned, lines: seq<string>)
    ensures WrittenIn(owned, lines) <= owned.Keys
  {
    if lines != [] { WrittenAreOwned(owned, lines[..|lines| - 1]); }
  }

  lemma MissingCompletes(owned: Owned, text: string)
    ensures WrittenIn(owned, OldLines(text)) + Elements(Missing(owned, text)) == owned.Keys
  {
    WrittenAreOwned(owned, OldLines(text));
  }

  lemma NewLinesParse(settings: map<string, Value>, text: string)
    requires Settable(settings) && ParsedLines(OldLines(text)).Ok?
    ensures var r := ParsedLines(NewLines(RenderedSettings(settings), text));
            r.Ok? && Overridden(settings, ParsedLines(OldLines(text)).value, r.value, settings.Keys)
  {
    var owned, before := RenderedSettings(settings), OldLines(text);
    KeptParses(settings, before);
    MissingAreOwned(owned, text);
    MissingCompletes(owned, text);
    RenderedParse(settings, ParsedLines(before).value, Kept(owned, before), WrittenIn(owned, before),
                  Missing(owned, text));
  }

  lemma UpsertedParse(settings: map<string, Value>, text: string)
    requires Settable(settings) && ParsedLines(NewLines(RenderedSettings(settings), text)).Ok?
    ensures Parsed(Upserted(RenderedSettings(settings), text))
             == ParsedLines(NewLines(RenderedSettings(settings), text))
  {
    var n := SplitOfUpserted(settings, text);
    EmptiesDoNothing(NewLines(RenderedSettings(settings), text), n);
  }

  /** Upsert is a lens over any file that parses: the new file parses to the old
      layer overridden by exactly the settings given. */
  lemma UpsertPuts(settings: map<string, Value>, text: string)
    requires Settable(settings) && Parsed(text).Ok?
    ensures var r := Parsed(Upserted(RenderedSettings(settings), text));
            r.Ok? && Put(settings, Parsed(text).value, r.value)
  {
    OldLinesParse(text);
    NewLinesParse(settings, text);
    UpsertedParse(settings, text);
    LayersAreRecognized(OldLines(text));
    OverriddenByAll(settings, ParsedLines(OldLines(text)).value,
                    ParsedLines(NewLines(RenderedSettings(settings), text)).value);
  }

  lemma PutTwice(settings: map<string, Value>, t: Toml, once: Toml, twice: Toml)
    requires Put(settings, t, once) && Put(settings, once, twice)
    ensures twice.layer == once.layer && (AllRecognized(settings) ==> twice == once)
  {
    var r := Recognized(settings);
    assert t.layer + r + r == t.layer + r;
  }

  /** Putting the same settings again parses the same. */
  lemma UpsertTwiceParsesTheSame(settings: map<string, Value>, text: string)
    requires Settable(settings) && Parsed(text).Ok?
    ensures var owned := RenderedSettings(settings);
            var once := Parsed(Upserted(owned, text));
            var twice := Parsed(Upserted(owned, Upserted(owned, text)));
            once.Ok? && twice.Ok? && twice.value.layer == once.value.layer
            && (AllRecognized(settings) ==> twice == once)
  {
    var owned := RenderedSettings(settings);
    var text' := Upserted(owned, text);
    UpsertPuts(settings, text);
    UpsertPuts(settings, text');
    PutTwice(settings, Parsed(text).value, Parsed(text').value, Parsed(Upserted(owned, text')).value);
  }

  /** The lines the rewriter does not own, in order. */
  function Unowned(owned: Owned, lines: seq<string>): seq<string> {
    if lines == [] then []
    else
      var raw := lines[|lines| - 1];
      Unowned(owned, lines[..|lines| - 1]) + (if Owns(owned, raw) then [] else [raw])
  }

  lemma {:induction false} UnownedConcat(owned: Owned, a: seq<string>, b: seq<string>)
    ensures Unowned(owned, a + b) == Unowned(owned, a) + Unowned(owned, b)
  {
    if b == [] {
      assert a + b == a;
    } else {
      UnownedConcat(owned, a, b[..|b| - 1]);
      assert (a + b)[..|a + b| - 1] == a + b[..|b| - 1];
    }
  }

  lemma RenderedIsOwned(settings: map<string, Value>, key: string)
    requires Settable(settings) && key in settings
    ensures Owns(RenderedSettings(settings), Rendered(RenderedSettings(settings), key))
    ensures KeyOfLine(Rendered(RenderedSettings(settings), key)) == Some(key)
  {
    assert SettableAt(key, settings[key]);
    RenderedLineReadsBack(key, settings[key]);
  }

  lemma {:induction false} KeptKeepsUnowned(settings: map<string, Value>, lines: seq<string>)
    requires Settable(settings)
    ensures Unowned(RenderedSettings(settings), Kept(RenderedSettings(settings), lines))
             == Unowned(RenderedSettings(settings), lines)
  {
    if lines != [] {
      var owned := RenderedSettings(settings);
      var init, raw := lines[..|lines| - 1], lines[|lines| - 1];
      KeptKeepsUnowned(settings, init);
      var more := Rewrite(owned, WrittenIn(owned, init), raw);
      UnownedConcat(owned, Kept(owned, init), more);
      if Owns(owned, raw) { RenderedIsOwned(settings, KeyOfLine(raw).value); }
      assert Unowned(owned, more) == if Owns(owned, raw) then [] else [raw] by {
        if more != [] { assert more[..0] == []; }
      }
    }
  }

  lemma {:induction false} RenderedAllOwned(settings: map<string, Value>, keys: seq<string>)
    requires Settable(settings) && forall k :: k in keys ==> k in settings
    ensures Unowned(RenderedSettings(settings), RenderedAll(RenderedSettings(settings), keys)) == []
  {
    if keys != [] {
      var owned, init := RenderedSettings(settings), keys[..|keys| - 1];
      RenderedAllOwned(settings, init);
      RenderedIsOwned(settings, keys[|keys| - 1]);
      assert RenderedAll(owned, keys)[..|RenderedAll(owned, keys)| - 1] == RenderedAll(owned, init);
    }
  }

  /** Every line not owned survives verbatim and in order; only the trailing run of
      newlines may differ. */
  lemma UpsertKeepsUnownedLines(settings: map<string, Value>, text: string)
    requires Settable(settings)
    ensures var owned := RenderedSettings(settings);
            Unowned(owned, NewLines(owned, text)) == Unowned(owned, OldLines(text))
    ensures exists n :: Split(text) == OldLines(text) + Empties(n)
    ensures exists n :: Split(Upserted(RenderedSettings(settings), text))
                        == NewLines(RenderedSettings(settings), text) + Empties(n)
  {
    var owned := RenderedSettings(settings);
    KeptKeepsUnowned(settings, OldLines(text));
    MissingAreOwned(owned, text);
    RenderedAllOwned(settings, Missing(owned, text));
    UnownedConcat(owned, Kept(owned, OldLines(text)), RenderedAll(owned, Missing(owned, text)));
    if text == "" {
      assert Split(text) == OldLines(text) + Empties(1);
    } else {
      var n := SplitOfTrimmed(text);
    }
    var m := SplitOfUpserted(settings, text);
  }

  // ----------------------------------------------------- the same bytes again?

  /** Each owned key at most once, and as it is printed. */
  ghost predicate InPlace(owned: Owned, lines: seq<string>) {
    lines == [] ||
    var init, raw := lines[..|lines| - 1], lines[|lines| - 1];
    && InPlace(owned, init)
    && (Owns(owned, raw) ==>
          KeyOfLine(raw).value !in WrittenIn(owned, init) && raw == Rendered(owned, KeyOfLine(raw).value))
  }

  lemma InPlaceAppend(owned: Owned, lines: seq<string>, raw: string)
    requires InPlace(owned, lines)
    requires Owns(owned, raw) ==>
               KeyOfLine(raw).value !in WrittenIn(owned, lines) && raw == Rendered(owned, KeyOfLine(raw).value)
    ensures InPlace(owned, lines + [raw])
    ensures WrittenIn(owned, lines + [raw])
             == WrittenIn(owned, lines) + (if Owns(owned, raw) then {KeyOfLine(raw).value} else {})
  {
    assert (lines + [raw])[..|lines + [raw]| - 1] == lines;
  }

  lemma {:induction false} InPlaceIsKept(owned: Owned, lines: seq<string>)
    requires InPlace(owned, lines)
    ensures Kept(owned, lines) == lines
  {
    if lines != [] {
      var init, raw := lines[..|lines| - 1], lines[|lines| - 1];
      InPlaceIsKept(owned, init);
      InPlaceRewrite(owned, lines);
      KeptStep(owned, init, raw);
      assert lines == init + [raw];
    }
  }

  lemma InPlaceRewrite(owned: Owned, lines: seq<string>)
    requires lines != [] && InPlace(owned, lines)
    ensures var init, raw := lines[..|lines| - 1], lines[|lines| - 1];
            InPlace(owned, init) && Rewrite(owned, WrittenIn(owned, init), raw) == [raw]
  {}

  lemma {:induction false} KeptIsInPlace(settings: map<string, Value>, lines: seq<string>)
    requires Settable(settings)
    ensures var owned := RenderedSettings(settings);
            InPlace(owned, Kept(owned, lines)) && WrittenIn(owned, Kept(owned, lines)) == WrittenIn(owned, lines)
  {
    if lines != [] {
      var owned, init, raw := RenderedSettings(settings), lines[..|lines| - 1], lines[|lines| - 1];
      KeptIsInPlace(settings, init);
      var kept := Kept(owned, init);
      if !Owns(owned, raw) {
        InPlaceAppend(owned, kept, raw);
      } else {
        var key := KeyOfLine(raw).value;
        RenderedIsOwned(settings, key);
        if key in WrittenIn(owned, init) {
          assert Kept(owned, lines) == kept;
        } else {
          InPlaceAppend(owned, kept, Rendered(owned, key));
        }
      }
    }
  }

  lemma {:induction false} RenderedInPlace(settings: map<string, Value>, base: seq<string>, keys: seq<string>)
    requires Settable(settings) && InPlace(RenderedSettings(settings), base)
    requires Distinct(keys) && forall k :: k in keys ==>
               k in settings && k !in WrittenIn(RenderedSettings(settings), base)
    ensures var owned := RenderedSettings(settings);
            var all := base + RenderedAll(owned, keys);
            InPlace(owned, all) && WrittenIn(owned, all) == WrittenIn(owned, base) + Elements(keys)
  {
    var owned := RenderedSettings(settings);
    if keys == [] {
      assert base + RenderedAll(owned, keys) == base;
      assert WrittenIn(owned, base) + Elements(keys) == WrittenIn(owned, base);
    } else {
      var init, key := keys[..|keys| - 1], keys[|keys| - 1];
      ElementsLast(WrittenIn(owned, base), keys);
      assert key !in init;
      RenderedInPlace(settings, base, init);
      RenderedIsOwned(settings, key);
      AppendAssoc(base, RenderedAll(owned, init), Rendered(owned, key));
      InPlaceAppend(owned, base + RenderedAll(owned, init), Rendered(owned, key));
    }
  }

  lemma {:induction false} EmptiesInPlace(owned: Owned, lines: seq<string>, n: nat)
    ensures InPlace(owned, lines + Empties(n)) <==> InPlace(owned, lines)
    ensures WrittenIn(owned, lines + Empties(n)) == WrittenIn(owned, lines)
  {
    var all := lines + Empties(n);
    if n == 0 {
      assert all == lines;
    } else {
      EmptiesInPlace(owned, lines, n - 1);
      assert all[..|all| - 1] == lines + Empties(n - 1) && all[|all| - 1] == "";
    }
  }

  lemma NewLinesInPlace(settings: map<string, Value>, text: string)
    requires Settable(settings)
    ensures var owned := RenderedSettings(settings);
            InPlace(owned, NewLines(owned, text)) && WrittenIn(owned, NewLines(owned, text)) == owned.Keys
  {
    var owned, missing := RenderedSettings(settings), Missing(RenderedSettings(settings), text);
    KeptIsInPlace(settings, OldLines(text));
    MissingAreOwned(owned, text);
    MissingCompletes(owned, text);
    BeforeIsStrictTotal();
    forall k | k in missing ensures k !in WrittenIn(owned, OldLines(text)) { assert k in Elements(missing); }
    RenderedInPlace(settings, Kept(owned, OldLines(text)), missing);
  }

  /** A second identical upsert only normalizes the trailing newlines to one. */
  lemma SecondUpsertTrims(settings: map<string, Value>, text: string)
    requires Settable(settings)
    ensures var owned := RenderedSettings(settings);
            var once := Upserted(owned, text);
            Upserted(owned, once) == TrimNewlines(once) + ['\n']
  {
    var owned := RenderedSettings(settings);
    var once := Upserted(owned, text);
    var lines, again := NewLines(owned, text), OldLines(once);
    var n := SplitOfUpserted(settings, text);
    var m := SplitOfTrimmed(once);
    NewLinesInPlace(settings, text);
    EmptiesInPlace(owned, lines, n);
    EmptiesInPlace(owned, again, m);
    InPlaceIsKept(owned, again);
    NothingMissing(owned, once);
    JoinOfSplit(TrimNewlines(once));
  }

  lemma NothingMissing(owned: Owned, text: string)
    requires WrittenIn(owned, OldLines(text)) == owned.Keys && Kept(owned, OldLines(text)) == OldLines(text)
    ensures NewLines(owned, text) == OldLines(text)
  {
    assert owned.Keys - WrittenIn(owned, OldLines(text)) == {};
    assert Missing(owned, text) == [];
    assert OldLines(text) + [] == OldLines(text);
  }

  lemma RepeatsUnlessBlankEnd(settings: map<string, Value>, text: string)
    requires Settable(settings)
    ensures var owned := RenderedSettings(settings);
            var once := Upserted(owned, text);
            Upserted(owned, once) == once <==> !(|once| >= 2 && once[|once| - 2] == '\n')
  {
    SecondUpsertTrims(settings, text);
    OneTrailingNewline(Join(NewLines(RenderedSettings(settings), text), '\n'));
  }

  /** Line j sets an owned key that an earlier line sets. */
  ghost predicate IsDuplicate(owned: Owned, lines: seq<string>, j: nat)
    requires j < |lines|
  {
    Owns(owned, lines[j]) && KeyOfLine(lines[j]).value in WrittenIn(owned, lines[..j])
  }

  /** Only duplicates of owned keys follow some blank line, not the first line. */
  ghost predicate BlankBeforeDuplicates(owned: Owned, lines: seq<string>) {
    exists i: nat {:trigger DuplicatesAfter(owned, lines, i)} ::
      0 < i < |lines| && lines[i] == "" && DuplicatesAfter(owned, lines, i)
  }

  ghost predicate DuplicatesAfter(owned: Owned, lines: seq<string>, i: nat) {
    forall j: nat {:trigger IsDuplicate(owned, lines, j)} :: i < j < |lines| ==> IsDuplicate(owned, lines, j)
  }

  lemma DuplicateStays(owned: Owned, lines: seq<string>, raw: string, j: nat)
    requires j < |lines|
    ensures IsDuplicate(owned, lines + [raw], j) <==> IsDuplicate(owned, lines, j)
  {
    assert (lines + [raw])[..j] == lines[..j];
  }

  lemma DuplicateLast(owned: Owned, lines: seq<string>, raw: string)
    ensures IsDuplicate(owned, lines + [raw], |lines|)
       <==> Owns(owned, raw) && KeyOfLine(raw).value in WrittenIn(owned, lines)
  {
    assert (lines + [raw])[..|lines|] == lines;
  }

  lemma BlankBeforeStep(owned: Owned, lines: seq<string>, raw: string)
    ensures BlankBeforeDuplicates(owned, lines + [raw])
       <==> if IsDuplicate(owned, lines + [raw], |lines|) then BlankBeforeDuplicates(owned, lines)
            else lines != [] && raw == ""
  {
    var all := lines + [raw];
    forall j: nat | j < |lines| ensures IsDuplicate(owned, all, j) <==> IsDuplicate(owned, lines, j) {
      DuplicateStays(owned, lines, raw, j);
    }
    assert KeyOfLine("") == None;
    if BlankBeforeDuplicates(owned, all) {
      var i: nat :| 0 < i < |all| && all[i] == "" && DuplicatesAfter(owned, all, i);
      if i < |lines| {
        assert IsDuplicate(owned, all, |lines|);
        assert DuplicatesAfter(owned, lines, i);
      }
    }
    if IsDuplicate(owned, all, |lines|) && BlankBeforeDuplicates(owned, lines) {
      var i: nat :| 0 < i < |lines| && lines[i] == "" && DuplicatesAfter(owned, lines, i);
      assert all[i] == "" && DuplicatesAfter(owned, all, i);
    }
    if !IsDuplicate(owned, all, |lines|) && lines != [] && raw == "" {
      assert all[|lines|] == "" && DuplicatesAfter(owned, all, |lines|);
    }
  }

  ghost predicate EndsBlank(lines: seq<string>) {
    |lines| >= 2 && lines[|lines| - 1] == ""
  }

  /** The kept lines end in a blank one exactly when only duplicates followed it. */
  lemma {:induction false} KeptEndsBlank(owned: Owned, lines: seq<string>)
    ensures EndsBlank(Kept(owned, lines)) <==> BlankBeforeDuplicates(owned, lines)
    ensures Kept(owned, lines) == [] <==> lines == []
  {
    if lines != [] {
      var init, raw := lines[..|lines| - 1], lines[|lines| - 1];
      assert lines == init + [raw];
      KeptEndsBlank(owned, init);
      KeptStep(owned, init, raw);
      DuplicateLast(owned, init, raw);
      BlankBeforeStep(owned, init, raw);
      assert KeyOfLine("") == None;
    }
  }

  lemma {:induction false} JoinEndsBlank(lines: seq<string>)
    requires Lines(lines)
    ensures var text := Join(lines, '\n');
            text != "" && text[|text| - 1] == '\n' <==> EndsBlank(lines)
  {
    if |lines| == 1 {
      var text := lines[0];
      assert text in lines && OneLine(text);
      assert text != "" ==> text[|text| - 1] in text;
    } else if |lines| > 1 {
      var rest := Join(lines[1..], '\n');
      assert forall l :: l in lines[1..] ==> l in lines;
      JoinEndsBlank(lines[1..]);
      assert rest == "" ==> |lines| == 2 && lines[1] == "" by {
        assert |lines| > 2 ==> |rest| >= 1;
      }
    }
  }

  lemma JoinedEndsBlank(lines: seq<string>, text: string)
    requires Lines(lines) && text == Join(lines, '\n') + ['\n']
    ensures |text| >= 2 && text[|text| - 2] == '\n' <==> EndsBlank(lines)
  {
    JoinEndsBlank(lines);
  }

  lemma NewLinesEndBlank(owned: Owned, text: string)
    ensures EndsBlank(NewLines(owned, text))
            <==> Missing(owned, text) == [] && BlankBeforeDuplicates(owned, OldLines(text))
  {
    var kept, missing := Kept(owned, OldLines(text)), Missing(owned, text);
    MissingAreOwned(owned, text);
    if missing == [] {
      assert NewLines(owned, text) == kept;
      KeptEndsBlank(owned, OldLines(text));
    }
  }

  lemma UpsertedEndsBlank(settings: map<string, Value>, text: string)
    requires Settable(settings)
    ensures var owned := RenderedSettings(settings);
            var once := Upserted(owned, text);
            |once| >= 2 && once[|once| - 2] == '\n' <==> EndsBlank(NewLines(owned, text))
  {
    NewLinesAreLines(settings, text);
    JoinedEndsBlank(NewLines(RenderedSettings(settings), text), Upserted(RenderedSettings(settings), text));
  }

  /** The bytes repeat exactly unless the file sets every owned key already and a
      blank line, not its first, is followed by nothing but duplicates of them. */
  lemma UpsertTwiceSameBytes(settings: map<string, Value>, text: string)
    requires Settable(settings)
    ensures var owned := RenderedSettings(settings);
            var once := Upserted(owned, text);
            (Upserted(owned, once) == once
             <==> !(Missing(owned, text) == [] && BlankBeforeDuplicates(owned, OldLines(text))))
  {
    var owned := RenderedSettings(settings);
    RepeatsUnlessBlankEnd(settings, text);
    UpsertedEndsBlank(settings, text);
    NewLinesEndBlank(owned, text);
  }

  lemma OneTrailingNewline(init: string)
    ensures var s := init + ['\n'];
            TrimNewlines(s) + ['\n'] == s <==> !(|s| >= 2 && s[|s| - 2] == '\n')
  {
    var s, t := init + ['\n'], TrimNewlines(init);
    assert s[..|s| - 1] == init;
    TrimOnlyNewlines(init);
    assert (t + ['\n'])[..|t|] == t && (init + ['\n'])[..|init|] == init;
  }

  lemma {:induction false} TrimOnlyNewlines(s: string)
    ensures TrimNewlines(s) == s <==> !(s != "" && s[|s| - 1] == '\n')
    ensures |TrimNewlines(s)| <= |s|
  {
    if s != "" && s[|s| - 1] == '\n' { TrimOnlyNewlines(s[..|s| - 1]); }
  }

  /** A duplicate dropped from the end of a file can expose a blank line: then the
      second upsert changes the bytes. Here `key` is set, a blank line follows, and
      the same key is set again. */
  lemma DroppedDuplicateExposesBlank(key: string, first: string, second: string, value: string)
    requires IsBareKey(key) && OneLine(first) && OneLine(second) && OneLine(value)
    requires KindOf(key) == Some(StringKind)
    ensures var owned := RenderedSettings(map[key := Str(value)]);
            var a, b := key + " = " + QuoteTOML(first), key + " = " + QuoteTOML(second);
            var once := Upserted(owned, a + "\n\n" + b);
            once == key + " = " + QuoteTOML(value) + "\n\n" && Upserted(owned, once) != once
  {
    var settings := map[key := Str(value)];
    PrintedString(key, first);
    PrintedString(key, second);
    assert SettableAt(key, settings[key]);
    assert Rendered(RenderedSettings(settings), key) == key + " = " + QuoteTOML(value);
    DuplicateWritten(settings, key, key + " = " + QuoteTOML(first), key + " = " + QuoteTOML(second));
  }

  lemma DuplicateWritten(settings: map<string, Value>, key: string, a: string, b: string)
    requires Settable(settings) && settings.Keys == {key} && SettableAt(key, settings[key])
    requires KeyOfLine(a) == KeyOfLine(b) == Some(key)
    requires OneLine(a) && OneLine(b) && b != "" && b[|b| - 1] != '\n'
    ensures var owned := RenderedSettings(settings);
            var once := Upserted(owned, a + "\n\n" + b);
            once == Rendered(owned, key) + "\n\n" && Upserted(owned, once) != once
  {
    DuplicateText(settings, key, a, b);
    TwoLines(Rendered(RenderedSettings(settings), key));
    RepeatsUnlessBlankEnd(settings, a + "\n\n" + b);
  }

  lemma DuplicateText(settings: map<string, Value>, key: string, a: string, b: string)
    requires settings.Keys == {key} && (settings[key].Str? || settings[key].List?)
    requires KeyOfLine(a) == KeyOfLine(b) == Some(key)
    requires OneLine(a) && OneLine(b) && b != "" && b[|b| - 1] != '\n'
    ensures var owned := RenderedSettings(settings);
            NewLines(owned, a + "\n\n" + b) == [Rendered(owned, key), ""]
  {
    ThreeLines(a, b);
    KeptOfDuplicate(RenderedSettings(settings), key, a, b);
    OnlyKey(settings, key, a + "\n\n" + b);
  }

  lemma PrintedString(key: string, s: string)
    requires IsBareKey(key) && OneLine(s) && KindOf(key) == Some(StringKind)
    ensures var line := key + " = " + QuoteTOML(s);
            OneLine(line) && KeyOfLine(line) == Some(key) && line != "" && line[|line| - 1] != '\n'
  {
    assert Render(Str(s)) == QuoteTOML(s) && SettableAt(key, Str(s));
    RenderedOneLine(key, Str(s));
    RenderedLineReadsBack(key, Str(s));
    assert (key + " = " + QuoteTOML(s))[|key + " = " + QuoteTOML(s)| - 1] == '"';
  }

  lemma OnlyKey(settings: map<string, Value>, key: string, text: string)
    requires settings.Keys == {key} && (settings[key].Str? || settings[key].List?)
    requires WrittenIn(RenderedSettings(settings), OldLines(text)) == {key}
    ensures NewLines(RenderedSettings(settings), text) == Kept(RenderedSettings(settings), OldLines(text))
  {
    var owned := RenderedSettings(settings);
    assert owned.Keys - {key} == {};
    assert Missing(owned, text) == [];
    assert Kept(owned, OldLines(text)) + [] == Kept(owned, OldLines(text));
  }

  lemma TwoLines(c: string)
    ensures Join([c, ""], '\n') + ['\n'] == c + "\n\n"
  {
    assert [c, ""][1..] == [""];
    assert Join([""], '\n') == "";
    assert Join([c, ""], '\n') == c + ['\n'] + "";
  }

  lemma ThreeLines(a: string, b: string)
    requires OneLine(a) && OneLine(b) && b != "" && b[|b| - 1] != '\n'
    ensures OldLines(a + "\n\n" + b) == [a, "", b]
  {
    var text := a + "\n\n" + b;
    assert text == a + ['\n'] + ("" + ['\n'] + b);
    SplitOfLine(a, "" + ['\n'] + b);
    SplitOfLine("", b);
    SplitOfLine(b, "");
  }

  lemma KeptStep(owned: Owned, lines: seq<string>, raw: string)
    ensures Kept(owned, lines + [raw]) == Kept(owned, lines) + Rewrite(owned, WrittenIn(owned, lines), raw)
    ensures WrittenIn(owned, lines + [raw])
             == WrittenIn(owned, lines) + (if Owns(owned, raw) then {KeyOfLine(raw).value} else {})
  {
    assert (lines + [raw])[..|lines + [raw]| - 1] == lines;
  }

  lemma KeptOfDuplicate(owned: Owned, key: string, a: string, b: string)
    requires key in owned && KeyOfLine(a) == KeyOfLine(b) == Some(key)
    ensures Kept(owned, [a, "", b]) == [Rendered(owned, key), ""]
    ensures WrittenIn(owned, [a, "", b]) == {key}
  {
    assert KeyOfLine("") == None;
    var r := Rendered(owned, key);
    assert Kept(owned, [a]) == [r] && WrittenIn(owned, [a]) == {key} by {
      KeptStep(owned, [], a);
      assert [] + [a] == [a] && [] + [r] == [r];
    }
    assert Kept(owned, [a, ""]) == [r, ""] && WrittenIn(owned, [a, ""]) == {key} by {
      KeptStep(owned, [a], "");
      assert [a] + [""] == [a, ""] && [r] + [""] == [r, ""];
    }
    KeptStep(owned, [a, ""], b);
    assert [a, ""] + [b] == [a, "", b] && [r, ""] + [] == [r, ""];
  }

  // ------------------------------------------------------------------ the writer

  /** The owned keys with their rendered values; refuses a malformed key and a key
      set both ways. */
  method RenderOwned(strs: map<string, string>, lists: map<string, seq<string>>) returns (r: Result<Owned, UpsertError>)
    ensures r.Ok? <==> Writable(strs, lists)
    ensures r.Err? ==> Blamed(strs, lists, r.error)
    ensures r.Ok? ==> r.value == RenderedSettings(Settings(strs, lists))
  {
    var owned: Owned := map[];
    var walk := WalkKeys(strs.Keys);
    for i := 0 to |walk|
      invariant owned == StrsOf(strs, Elements(walk[..i]))
      invariant forall k :: k in Elements(walk[..i]) ==> IsBareKey(k) && k !in lists
    {
      var key := walk[i];
      ElementsOneMore(walk, i);
      assert key in Elements(walk);
      if !IsBareKey(key) { return Err(UpsertError.MalformedKey(key)); }
      if key in lists { return Err(BothKinds(key)); }
      StrsOneMore(strs, Elements(walk[..i]), key);
      owned := owned[key := QuoteTOML(strs[key])];
    }
    assert walk[..|walk|] == walk;
    var more := WalkKeys(lists.Keys);
    for i := 0 to |more|
      invariant owned == StrsOf(strs, strs.Keys) + ListsOf(lists, Elements(more[..i]))
      invariant forall k :: k in Elements(more[..i]) ==> IsBareKey(k)
    {
      var key := more[i];
      ElementsOneMore(more, i);
      assert key in Elements(more);
      if !IsBareKey(key) { return Err(UpsertError.MalformedKey(key)); }
      ListsOneMore(StrsOf(strs, strs.Keys), lists, Elements(more[..i]), key);
      owned := owned[key := QuoteTOMLList(lists[key])];
    }
    assert more[..|more|] == more;
    BothRendered(strs, lists);
    return Ok(owned);
  }

  function StrsOf(strs: map<string, string>, keys: set<string>): Owned {
    map k | k in keys && k in strs :: QuoteTOML(strs[k])
  }

  function ListsOf(lists: map<string, seq<string>>, keys: set<string>): Owned {
    map k | k in keys && k in lists :: QuoteTOMLList(lists[k])
  }

  lemma StrsOneMore(strs: map<string, string>, keys: set<string>, key: string)
    requires key in strs
    ensures StrsOf(strs, keys + {key}) == StrsOf(strs, keys)[key := QuoteTOML(strs[key])]
  {}

  lemma ListsOneMore(base: Owned, lists: map<string, seq<string>>, keys: set<string>, key: string)
    requires key in lists
    ensures base + ListsOf(lists, keys + {key}) == (base + ListsOf(lists, keys))[key := QuoteTOMLList(lists[key])]
  {}

  lemma BothRendered(strs: map<string, string>, lists: map<string, seq<string>>)
    requires strs.Keys !! lists.Keys
    ensures StrsOf(strs, strs.Keys) + ListsOf(lists, lists.Keys) == RenderedSettings(Settings(strs, lists))
  {
    var a, b := StrsOf(strs, strs.Keys) + ListsOf(lists, lists.Keys), RenderedSettings(Settings(strs, lists));
    assert a.Keys == b.Keys;
    forall k | k in a ensures a[k] == b[k] {
      assert k in strs ==> k !in lists;
    }
  }

  /** Rewrites the lines: owned keys in place, later duplicates dropped. */
  method RewriteLines(owned: Owned, lines: seq<string>) returns (out: seq<string>, written: set<string>)
    ensures out == Kept(owned, lines) && written == WrittenIn(owned, lines)
  {
    out, written := [], {};
    for i := 0 to |lines|
      invariant out == Kept(owned, lines[..i]) && written == WrittenIn(owned, lines[..i])
    {
      var raw := lines[i];
      assert lines[..i + 1][..i] == lines[..i];
      var line := TrimSpace(raw);
      if line == "" || line[0] == '#' {
        out := out + [raw];
        continue;
      }
      var cut := CutAt(line, '=');
      if cut.None? {
        out := out + [raw];
        continue;
      }
      var key := TrimSpace(cut.value.0);
      if key !in owned {
        out := out + [raw];
        continue;
      }
      if key in written { continue; }
      out := out + [key + " = " + owned[key]];
      written := written + {key};
    }
    assert lines[..|lines|] == lines;
  }

  /** The whole writer: from the file's text ("" when absent) to the text written. */
  method UpsertTOML(text: string, strs: map<string, string>, lists: map<string, seq<string>>)
    returns (r: Result<string, UpsertError>)
    ensures r.Ok? <==> Writable(strs, lists)
    ensures r.Err? ==> Blamed(strs, lists, r.error)
    ensures r.Ok? ==> r.value == Upserted(RenderedSettings(Settings(strs, lists)), text)
  {
    var rendered := RenderOwned(strs, lists);
    if rendered.Err? { return Err(rendered.error); }
    var owned := rendered.value;
    var out, written := RewriteLines(owned, OldLines(text));
    var missing := WalkKeys(owned.Keys - written);
    SortedStrings(missing);
    missing := Sort(Before, missing);
    MissingAreOwned(owned, text);
    var added := RenderMissing(owned, missing);
    out := out + added;
    return Ok(Join(out, '\n') + ['\n']);
  }

  /** A line for each missing key. */
  method RenderMissing(owned: Owned, missing: seq<string>) returns (out: seq<string>)
    requires forall k :: k in missing ==> k in owned
    ensures out == RenderedAll(owned, missing)
  {
    out := [];
    for i := 0 to |missing|
      invariant out == RenderedAll(owned, missing[..i])
    {
      assert missing[..i + 1][..i] == missing[..i];
      out := out + [missing[i] + " = " + owned[missing[i]]];
    }
    assert missing[..|missing|] == missing;
  }
}
