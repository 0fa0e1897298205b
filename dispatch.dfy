/** The `run` dispatcher: one invocation of `linked` loads the link map,
    applies one subcommand to it, and rewrites the backing file only when
    `add` succeeded.
 */
module Dispatch {
  import opened Lex
  import opened Sanitize
  import opened Listing
  import opened Store

  /** A subcommand as the argument parser hands it over. `add` carries every
      positional token it received; `get` carries the abbreviation clap
      returns for `LINK_ABBR`. */
  datatype Command =
    | Add(tokens: seq<string>)
    | Get(abbrev: string)
    | List
    | NoCommand
    | External(name: string)

  /** What an invocation reports. `UsageError` and `CorruptStore` are the
      two errors of `run` this model keeps; the others end the process
      normally. */
  datatype Outcome =
    | UsageError
    | Found(link: string)
    | NotFound
    | Listed(entries: seq<Entry>)
    | Ok
    | CorruptStore

  /** The map after a command, what it reported, and whether the backing
      file was rewritten with the new map. */
  datatype Transition = Transition(links: map<string, string>, outcome: Outcome, rewritten: bool)

  /** `add` with exactly the two tokens abbreviation and link. */
  predicate IsUpsert(cmd: Command) {
    cmd.Add? && |cmd.tokens| == 2
  }

  /** The effect of one subcommand on the link map `m`. */
  ghost function Step(m: map<string, string>, cmd: Command): (t: Transition)
    // only a well-formed `add` rewrites the file, and every other command
    // leaves the map as it was
    ensures t.rewritten <==> IsUpsert(cmd)
    ensures !IsUpsert(cmd) ==> t.links == m
    // `add a t` binds `a` to the sanitized `t` and keeps every other binding
    ensures IsUpsert(cmd) ==>
      && t.links.Keys == m.Keys + {cmd.tokens[0]}
      && t.links[cmd.tokens[0]] == SanitizeString(cmd.tokens[1])
      && (forall k :: k in m && k != cmd.tokens[0] ==> t.links[k] == m[k])
      && t.outcome == Ok
    ensures t.outcome == UsageError <==> cmd.Add? && |cmd.tokens| != 2
    // `get` finds exactly the bound abbreviations, and a miss is no error
    ensures cmd.Get? ==>
      && (t.outcome.Found? <==> cmd.abbrev in m)
      && (t.outcome.Found? ==> t.outcome.link == m[cmd.abbrev])
      && (!t.outcome.Found? ==> t.outcome == NotFound)
    ensures cmd.List? ==> t.outcome.Listed? && IsListing(m, t.outcome.entries)
    ensures cmd.NoCommand? || cmd.External? ==> t.outcome == Ok
    ensures t.outcome != CorruptStore
  {
    match cmd
    case Add(tokens) =>
      if |tokens| != 2 then Transition(m, UsageError, false)
      else Transition(m[tokens[0] := SanitizeString(tokens[1])], Ok, true)
    case Get(abbrev) =>
      Transition(m, if abbrev in m then Found(m[abbrev]) else NotFound, false)
    case List =>
      SortedListingIsListing(m);
      Transition(m, Listed(SortedListing(m)), false)
    case NoCommand => Transition(m, Ok, false)
    case External(_) => Transition(m, Ok, false)
  }

  /** The mutable state of `run`: the `key_values` map read from the
      backing file. */
  class Invocation {
    var keyValues: map<string, string>

    /** `read_links` on a backing file that decodes; a file that does not
        aborts the run before this point (see `Invoke`). */
    constructor (f: BackingFile)
      requires !f.Corrupt?
      ensures keyValues == Load(f).links
    {
      keyValues := Load(f).links;
    }

    /** `add`: checks the token count, then inserts the sanitized link and
        asks for the whole map to be written back. */
    method Add(tokens: seq<string>) returns (outcome: Outcome, rewritten: bool)
      modifies this
      ensures Transition(keyValues, outcome, rewritten) == Step(old(keyValues), Command.Add(tokens))
    {
      if |tokens| != 2 {
        return UsageError, false;
      }
      var abbrev := tokens[0];
      var text := SanitizeString(tokens[1]);
      keyValues := keyValues[abbrev := text];
      outcome, rewritten := Ok, true;
    }

    /** `get`: a read-only lookup. */
    method Get(abbrev: string) returns (outcome: Outcome)
      ensures abbrev in keyValues ==> outcome == Found(keyValues[abbrev])
      ensures abbrev !in keyValues ==> outcome == NotFound
    {
      if abbrev in keyValues {
        outcome := Found(keyValues[abbrev]);
      } else {
        outcome := NotFound;
      }
    }

    /** `list`: walks the sorted abbreviations and emits one entry each. */
    method List() returns (outcome: Outcome)
      ensures outcome.Listed? && IsListing(keyValues, outcome.entries)
    {
      var keys := SortedKeys(keyValues.Keys);
      var lines: seq<Entry> := [];
      var i := 0;
      while i < |keys|
        invariant 0 <= i <= |keys|
        invariant |lines| == i
        invariant forall j :: 0 <= j < i ==> keys[j] in keyValues && lines[j] == (keys[j], keyValues[keys[j]])
      {
        var key := keys[i];
        assert key in keys;
        lines := lines + [(key, keyValues[key])];
        i := i + 1;
      }
      forall e | e in lines ensures e.0 in keyValues && e.1 == keyValues[e.0] {
        var j :| 0 <= j < |lines| && lines[j] == e;
      }
      forall k | k in keyValues ensures (k, keyValues[k]) in lines {
        var j :| 0 <= j < |keys| && keys[j] == k;
        assert lines[j] == (k, keyValues[k]);
      }
      assert Abbreviations(lines) == keys;
      outcome := Listed(lines);
    }

    /** `run` after loading: dispatches on the subcommand. */
    method Run(cmd: Command) returns (outcome: Outcome, rewritten: bool)
      modifies this
      ensures Transition(keyValues, outcome, rewritten) == Step(old(keyValues), cmd)
    {
      match cmd {
        case Add(tokens) =>
          outcome, rewritten := Add(tokens);
        case Get(abbrev) =>
          outcome := Get(abbrev);
          rewritten := false;
        case List =>
          outcome := List();
          ListingUnique(keyValues, outcome.entries);
          rewritten := false;
        case NoCommand =>
          outcome, rewritten := Ok, false;
        case External(_) =>
          outcome, rewritten := Ok, false;
      }
    }
  }

  /** What one invocation leaves behind: the backing file and the report. */
  datatype Invoked = Invoked(file: BackingFile, outcome: Outcome)

  /** One whole process run against the backing file `f`: a file that does
      not parse aborts the run before any command is looked at. */
  ghost function Invoke(f: BackingFile, cmd: Command): (r: Invoked)
    // a file that does not decode stops every command and stays as it was
    ensures Load(f).ParseError? ==> r == Invoked(f, CorruptStore)
    // otherwise the command acts on the loaded map, and the file afterwards
    // holds the whole new map; it is left alone when nothing was written
    ensures Load(f).Links? ==>
      var t := Step(Load(f).links, cmd);
      && r.outcome == t.outcome
      && Load(r.file) == Links(t.links)
      && (!t.rewritten ==> r.file == f)
  {
    match Load(f)
    case ParseError => Invoked(f, CorruptStore)
    case Links(m) =>
      var t := Step(m, cmd);
      Invoked(if t.rewritten then Save(t.links) else f, t.outcome)
  }

  /** The backing file after a series of invocations. */
  ghost function Session(f: BackingFile, cmds: seq<Command>): BackingFile
    decreases |cmds|
  {
    if |cmds| == 0 then f else Session(Invoke(f, cmds[0]).file, cmds[1..])
  }

  /** The link map after a series of commands applied in memory. */
  ghost function Replay(m: map<string, string>, cmds: seq<Command>): map<string, string>
    decreases |cmds|
  {
    if |cmds| == 0 then m else Replay(Step(m, cmds[0]).links, cmds[1..])
  }

  /** The backing file is always a complete snapshot of the map: after any
      series of invocations on a readable file it loads to the map that
      applying the same commands in memory gives. */
  lemma {:induction false} SessionSnapshot(f: BackingFile, cmds: seq<Command>)
    requires !f.Corrupt?
    ensures Load(Session(f, cmds)) == Links(Replay(Load(f).links, cmds))
    decreases |cmds|
  {
    if |cmds| > 0 {
      var next := Invoke(f, cmds[0]).file;
      assert Load(next) == Links(Step(Load(f).links, cmds[0]).links);
      SessionSnapshot(next, cmds[1..]);
    }
  }

  /** Invocations that are not a well-formed `add` never touch the backing
      file, whether or not it parses. */
  lemma {:induction false} ReadOnlySession(f: BackingFile, cmds: seq<Command>)
    requires forall i :: 0 <= i < |cmds| ==> !IsUpsert(cmds[i])
    ensures Session(f, cmds) == f
    decreases |cmds|
  {
    if |cmds| > 0 {
      assert Invoke(f, cmds[0]).file == f;
      ReadOnlySession(f, cmds[1..]);
    }
  }

  /** A malformed `add` reports a usage error and leaves the file alone. */
  lemma UsageErrorKeepsFile(f: BackingFile, tokens: seq<string>)
    requires !f.Corrupt? && |tokens| != 2
    ensures Invoke(f, Add(tokens)) == Invoked(f, UsageError)
  {
  }

  /** A `get` of an unbound abbreviation reports "not found", which is no
      error, and leaves the file alone. */
  lemma GetMissKeepsFile(f: BackingFile, abbrev: string)
    requires !f.Corrupt? && abbrev !in Load(f).links
    ensures Invoke(f, Get(abbrev)) == Invoked(f, NotFound)
  {
  }

  /** Upsert overwrites: adding the same abbreviation twice leaves one
      binding for it, holding the second link. */
  lemma UpsertOverwrites(m: map<string, string>, x: string, a: string, b: string)
    ensures
      var r := Replay(m, [Add([x, a]), Add([x, b])]);
      && r.Keys == m.Keys + {x}
      && r[x] == SanitizeString(b)
      && forall k :: k in m && k != x ==> r[k] == m[k]
  {
    var cmds := [Add([x, a]), Add([x, b])];
    var m1 := Step(m, cmds[0]).links;
    assert Replay(m, cmds) == Replay(m1, cmds[1..]);
    assert Replay(m1, cmds[1..]) == Replay(Step(m1, Add([x, b])).links, []);
  }

  /** From a fresh (empty) backing file, `add foo <link>` then `get foo`
      finds the link; a link without parentheses or quotes comes back
      exactly as given. */
  lemma AddThenGet(abbrev: string, link: string)
    ensures
      var f := Invoke(Empty, Add([abbrev, link])).file;
      && Invoke(f, Get(abbrev)) == Invoked(f, Found(SanitizeString(link)))
      && (IsClean(link) ==> Invoke(f, Get(abbrev)).outcome == Found(link))
  {
    SanitizeFixedPoint(link);
  }

  /** `list` on the bindings b -> 2 and a -> 1 prints `a` before `b`. */
  lemma ListExample()
    ensures Step(map["b" := "2", "a" := "1"], List).outcome == Listed([("a", "1"), ("b", "2")])
  {
    var m := map["b" := "2", "a" := "1"];
    var l := [("a", "1"), ("b", "2")];
    assert Less("a", "b");
    assert AllBindings(m, l) by {
      forall k | k in m ensures (k, m[k]) in l {
        assert k == "a" || k == "b";
      }
    }
    ListingUnique(m, l);
  }
}
