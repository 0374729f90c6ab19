/** Where each line of an upserted file comes from, told of the lines themselves. */
module TomlLayout {
  import opened Results
  import opened Ordering
  import opened TomlFile
  import opened TomlUpsert

  /** Some line names key. */
  ghost predicate NamedIn(lines: seq<string>, key: string) {
    exists i :: 0 <= i < |lines| && Names(lines[i], key)
  }

  /** Line i names a key to be set, as a line before it does. */
  ghost predicate Repeats(owned: Owned, lines: seq<string>, i: nat)
    requires i < |lines|
  {
    exists key :: key in owned && Names(lines[i], key) && NamedIn(lines[..i], key)
  }

  /** What the file holds for a line: the setting it names, or the line as it was. */
  ghost predicate Becomes(owned: Owned, raw: string, out: string) {
    if exists key :: key in owned && Names(raw, key) then
      exists key :: key in owned && Names(raw, key) && out == key + " = " + owned[key]
    else out == raw
  }

  /** out holds, in order, the lines numbered by at: all but the repeats. */
  ghost predicate Placed(owned: Owned, lines: seq<string>, out: seq<string>, at: seq<nat>) {
    && |at| == |out|
    && (forall m, n :: 0 <= m < n < |at| ==> at[m] < at[n])
    && (forall n :: 0 <= n < |at| ==> at[n] < |lines| && Becomes(owned, lines[at[n]], out[n]))
    && (forall i: nat :: i < |lines| ==> (i in at <==> !Repeats(owned, lines, i)))
  }

  /** out holds a line for each key, in order. */
  ghost predicate Appended(owned: Owned, keys: seq<string>, out: seq<string>) {
    |out| == |keys| && forall n :: 0 <= n < |keys| ==> keys[n] in owned && out[n] == keys[n] + " = " + owned[keys[n]]
  }

  lemma {:induction false} WrittenAreNamed(owned: Owned, lines: seq<string>, key: string)
    ensures key in WrittenIn(owned, lines) <==> key in owned && NamedIn(lines, key)
  {
    if lines != [] {
      var init, raw := lines[..|lines| - 1], lines[|lines| - 1];
      WrittenAreNamed(owned, init, key);
      KeySeen(raw, key);
      NamedGrows(init, raw, key);
      assert lines == init + [raw];
    }
  }

  lemma NamedGrows(lines: seq<string>, raw: string, key: string)
    ensures NamedIn(lines + [raw], key) <==> NamedIn(lines, key) || Names(raw, key)
  {
    var more := lines + [raw];
    assert more[|lines|] == raw;
    if NamedIn(lines, key) {
      var i :| 0 <= i < |lines| && Names(lines[i], key);
      assert more[i] == lines[i];
    }
    if i :| 0 <= i < |lines| && Names(more[i], key) { assert lines[i] == more[i]; }
  }

  lemma OwnsNamed(owned: Owned, raw: string)
    ensures Owns(owned, raw) <==> exists key :: key in owned && Names(raw, key)
    ensures Owns(owned, raw) ==> forall key :: Names(raw, key) <==> KeyOfLine(raw) == Some(key)
  {
    forall key ensures Names(raw, key) <==> KeyOfLine(raw) == Some(key) { KeySeen(raw, key); }
  }

  lemma RepeatsAre(owned: Owned, lines: seq<string>, raw: string)
    ensures Repeats(owned, lines + [raw], |lines|)
       <==> Owns(owned, raw) && KeyOfLine(raw).value in WrittenIn(owned, lines)
  {
    assert (lines + [raw])[..|lines|] == lines;
    OwnsNamed(owned, raw);
    if Owns(owned, raw) { WrittenAreNamed(owned, lines, KeyOfLine(raw).value); }
  }

  lemma RepeatsStay(owned: Owned, lines: seq<string>, raw: string, i: nat)
    requires i < |lines|
    ensures Repeats(owned, lines + [raw], i) <==> Repeats(owned, lines, i)
  {
    assert (lines + [raw])[..i] == lines[..i];
  }

  lemma RewrittenBecomes(owned: Owned, written: set<string>, raw: string)
    requires Rewrite(owned, written, raw) != []
    ensures Becomes(owned, raw, Rewrite(owned, written, raw)[0])
  {
    OwnsNamed(owned, raw);
  }

  lemma PlacedMore(owned: Owned, lines: seq<string>, out: seq<string>, at: seq<nat>, raw: string, line: string)
    requires Placed(owned, lines, out, at) && !Repeats(owned, lines + [raw], |lines|) && Becomes(owned, raw, line)
    ensures Placed(owned, lines + [raw], out + [line], at + [|lines|])
  {
    var more, at' := lines + [raw], at + [|lines|];
    forall i: nat | i < |more| ensures i in at' <==> !Repeats(owned, more, i) {
      if i < |lines| { RepeatsStay(owned, lines, raw, i); } else { assert at'[|at|] == i; }
    }
    forall n | 0 <= n < |at| ensures at'[n] < |more| && Becomes(owned, more[at'[n]], (out + [line])[n]) {
      assert more[at'[n]] == lines[at[n]];
    }
  }

  lemma PlacedSame(owned: Owned, lines: seq<string>, out: seq<string>, at: seq<nat>, raw: string)
    requires Placed(owned, lines, out, at) && Repeats(owned, lines + [raw], |lines|)
    ensures Placed(owned, lines + [raw], out, at)
  {
    var more := lines + [raw];
    forall i: nat | i < |more| ensures i in at <==> !Repeats(owned, more, i) {
      if i < |lines| { RepeatsStay(owned, lines, raw, i); }
    }
    forall n | 0 <= n < |at| ensures at[n] < |more| && Becomes(owned, more[at[n]], out[n]) {
      assert more[at[n]] == lines[at[n]];
    }
  }

  /** The rewritten lines stand where they stood. */
  lemma {:induction false} KeptArePlaced(owned: Owned, lines: seq<string>) returns (at: seq<nat>)
    ensures Placed(owned, lines, Kept(owned, lines), at)
  {
    at := [];
    if lines != [] {
      var init, raw := lines[..|lines| - 1], lines[|lines| - 1];
      at := KeptArePlaced(owned, init);
      var line := Rewrite(owned, WrittenIn(owned, init), raw);
      assert lines == init + [raw];
      RepeatsAre(owned, init, raw);
      if line == [] {
        PlacedSame(owned, init, Kept(owned, init), at, raw);
        assert Kept(owned, lines) == Kept(owned, init);
      } else {
        RewrittenBecomes(owned, WrittenIn(owned, init), raw);
        PlacedMore(owned, init, Kept(owned, init), at, raw, line[0]);
        assert line == [line[0]];
        at := at + [|init|];
      }
    }
  }

  lemma {:induction false} RenderedAreAppended(owned: Owned, keys: seq<string>)
    requires forall k :: k in keys ==> k in owned
    ensures Appended(owned, keys, RenderedAll(owned, keys))
  {
    if keys != [] { RenderedAreAppended(owned, keys[..|keys| - 1]); }
  }

  /** An upserted file's lines: the old ones in place, each key to be set written over its
      first line and dropped from later ones; then the keys no line named, sorted. */
  ghost predicate LaysOut(owned: Owned, lines: seq<string>, out: seq<string>, at: seq<nat>, missing: seq<string>) {
    && |at| <= |out| && Placed(owned, lines, out[..|at|], at)
    && Appended(owned, missing, out[|at|..])
    && Ascending(Before, missing)
    && forall key :: key in missing <==> key in owned && !NamedIn(lines, key)
  }

  lemma UpsertLaysOut(owned: Owned, text: string) returns (at: seq<nat>, missing: seq<string>)
    ensures LaysOut(owned, OldLines(text), NewLines(owned, text), at, missing)
  {
    var lines := OldLines(text);
    at := KeptArePlaced(owned, lines);
    missing := Missing(owned, text);
    MissingAreOwned(owned, text);
    RenderedAreAppended(owned, missing);
    var out := NewLines(owned, text);
    assert out[..|at|] == Kept(owned, lines) && out[|at|..] == RenderedAll(owned, missing);
    forall key ensures key in missing <==> key in owned && !NamedIn(lines, key) {
      WrittenAreNamed(owned, lines, key);
      assert key in missing <==> key in Elements(missing);
    }
  }

  /** The old lines are the file's without its trailing newlines, none for an empty file. */
  lemma OldLinesAre(text: string) returns (n: nat)
    ensures text == "" ==> OldLines(text) == []
    ensures text != "" ==> Split(text) == OldLines(text) + Empties(n) && OldLines(text) != []
    ensures |OldLines(text)| > 1 ==> OldLines(text)[|OldLines(text)| - 1] != ""
  {
    n := SplitOfTrimmed(text);
    TrimmedEnds(text);
    LastLineEnds(TrimNewlines(text));
  }

  lemma {:induction false} TrimmedEnds(s: string)
    ensures var t := TrimNewlines(s); t != "" ==> t[|t| - 1] != '\n'
    decreases |s|
  {
    if s != "" && s[|s| - 1] == '\n' { TrimmedEnds(s[..|s| - 1]); }
  }

  lemma {:induction false} LastLineEnds(s: string)
    requires s != "" ==> s[|s| - 1] != '\n'
    ensures var r := Split(s); |r| > 1 ==> r[|r| - 1] != ""
  {
    if s != "" {
      var r := Split(s[1..]);
      LastLineEnds(s[1..]);
      if |r| == 1 && s[0] == '\n' { assert s[1..] != ""; OneLineSplit(s[1..]); }
    }
  }

  lemma {:induction false} OneLineSplit(s: string)
    requires |Split(s)| == 1
    ensures Split(s)[0] == s
  {
    if s != "" { OneLineSplit(s[1..]); }
  }
}
