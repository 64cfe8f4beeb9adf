/**
 * The blueprint loader of `World` (spark.hpp): the text processing of `loadBlueprints`, the
 * splitting of the text into object blocks, `parseBlueprint`, `parseComponent`, and the
 * name-keyed table the results are stored in.
 *
 * Every parsing function follows the source's index arithmetic step by step. Where the source
 * adds one to a failed search (`npos + 1` wraps to 0 and parsing goes on from the start of the
 * text), the parsing functions yield `Malformed`, and the loader's methods require text on
 * which that never happens: on such text the source may not stop. Every other failed search
 * is followed exactly (a `substr` up to `npos` takes the rest).
 */
module Blueprints {
  import opened Wrappers
  import opened Text

  datatype BlueprintComponent = BlueprintComponent(name: string, arguments: map<string, string>)

  datatype Blueprint = Blueprint(name: string, components: seq<BlueprintComponent>, listenForEvents: seq<string>)

  /** The outcome of a parsing step: a value, or a failed search whose result the source increments. */
  datatype Parse<+T> = Parsed(value: T) | Malformed

  /** The literal marker that ends an object block. */
  const ObjectEnd: string := "</object>"

  /** The `end < blueprintEnd` test on `size_t` positions, where `npos` is larger than any position. */
  predicate Before(a: Option<nat>, b: Option<nat>)
  {
    a.Some? && (b.None? || a.value < b.value)
  }

  // ----- parseComponent -----

  /**
   * One pass of the `do ... while(end < componentData.size() - 1)` loop of `parseComponent`,
   * `start` being the position of the blank before a `key="value"` pair: the arguments with the
   * pair stored, and where the next pass starts if the loop goes on.
   */
  function PairRead(d: string, start: nat, args: map<string, string>): (r: Parse<(map<string, string>, Option<nat>)>)
    requires start <= |d|
    ensures r.Parsed? && r.value.1.Some? ==> start < r.value.1.value <= |d|
  {
    var equals := FindChar(d, '=', start);
    if equals.None? then Parsed((args, None))
    else
      var key := Slice(d, start + 1, equals);
      var open := FindChar(d, '"', start);
      if open.None? then Malformed
      else
        var valueStart := open.value + 1;
        var close := FindChar(d, '"', valueStart + 1);
        var args' := args[key := Slice(d, valueStart, close)];
        if close.Some? && close.value < |d| - 1 then Parsed((args', Some(close.value + 1)))
        else Parsed((args', None))
  }

  /** The passes of the argument loop from `start` on, until a pass finds no `=` or ends the text. */
  function ParseArguments(d: string, start: nat, args: map<string, string>): (r: Parse<map<string, string>>)
    requires start <= |d|
    decreases |d| - start
  {
    match PairRead(d, start, args)
    case Malformed => Malformed
    case Parsed((args', None)) => Parsed(args')
    case Parsed((args', Some(next))) => ParseArguments(d, next, args')
  }

  /** A pass that goes on leaves the rest of the loop to the passes after it. */
  lemma {:induction false} PairPass(d: string, start: nat, args: map<string, string>, args': map<string, string>, next: nat)
    requires start <= |d| && PairRead(d, start, args) == Parsed((args', Some(next)))
    ensures ParseArguments(d, start, args) == ParseArguments(d, next, args')
  {
  }

  /**
   * `parseComponent`: the component's name is the quoted value after `ComponentName`; the
   * `key="value"` pairs after it become its arguments. When no blank follows the name the
   * loop's first search starts at `npos` and the component has no arguments.
   */
  function ParseComponent(d: string): (r: Parse<BlueprintComponent>)
  {
    var open := FindCharFrom(d, '"', FindStr(d, "ComponentName", 0));
    if open.None? then Malformed
    else
      var start := open.value + 1;
      var close := FindChar(d, '"', start);
      var name := Slice(d, start, close);
      var blank := FindCharFrom(d, ' ', close);
      if blank.None? then Parsed(BlueprintComponent(name, map[]))
      else
        match ParseArguments(d, blank.value, map[])
        case Malformed => Malformed
        case Parsed(args) => Parsed(BlueprintComponent(name, args))
  }

  // ----- parseBlueprint -----

  /**
   * The `else` branch of `parseBlueprint`'s loop: a tag that is not a `component` names an
   * event to listen for in its quoted `Name` value. Yields the new `start` and the name.
   */
  function ListenName(b: string, start: nat): (r: Parse<(nat, string)>)
    requires start <= |b|
    ensures r.Parsed? ==> start < r.value.0 <= |b|
  {
    var open := FindCharFrom(b, '"', FindStr(b, "Name", start));
    if open.None? then Malformed
    else
      var nameStart := open.value + 1;
      Parsed((nameStart, Slice(b, nameStart, FindChar(b, '"', nameStart))))
  }

  /**
   * Where the loop of `parseBlueprint` stands: `start` just after a tag's `<`, `end` at the
   * next `>`, and what has been read so far.
   */
  datatype Walk = Walk(start: nat, end: Option<nat>, components: seq<BlueprintComponent>, events: seq<string>)

  /**
   * The `if`/`else` of the loop of `parseBlueprint` at `w`: a `component` tag adds its parsed
   * component, any other tag the event named in it. Yields where the search for the next `<`
   * starts (`start`, moved past the event's name in the `else` branch) and what has been read.
   */
  function TagRead(b: string, w: Walk): (r: Parse<(nat, seq<BlueprintComponent>, seq<string>)>)
    requires w.start <= |b|
    ensures r.Parsed? ==> w.start <= r.value.0 <= |b|
  {
    if Slice(b, w.start, FindChar(b, ' ', w.start)) == "component" then
      match ParseComponent(Slice(b, w.start, w.end))
      case Malformed => Malformed
      case Parsed(c) => Parsed((w.start, w.components + [c], w.events))
    else
      match ListenName(b, w.start)
      case Malformed => Malformed
      case Parsed((from, event)) => Parsed((from, w.components, w.events + [event]))
  }

  /**
   * The loop `while(end < blueprintEnd)` of `parseBlueprint`: `start` is just after a tag's
   * `<` and `end` the position of the next `>`; while that `>` comes before the end marker,
   * the tag is read and the loop goes on from the next `<`.
   */
  function ParseTags(b: string, start: nat, end: Option<nat>, blueprintEnd: Option<nat>,
                     components: seq<BlueprintComponent>, events: seq<string>)
    : (r: Parse<(seq<BlueprintComponent>, seq<string>)>)
    requires start <= |b|
    decreases |b| - start, 1
  {
    if !Before(end, blueprintEnd) then Parsed((components, events))
    else
      match TagRead(b, Walk(start, end, components, events))
      case Malformed => Malformed
      case Parsed((from, readComponents, readEvents)) =>
        match FindChar(b, '<', from)
        case None => Malformed
        case Some(open) => ReadFrom(b, open, blueprintEnd, readComponents, readEvents)
  }

  /** The last two statements of the loop body and the loop from there: `start` just past the `<` at `open`, `end` at the `>` after it. */
  function ReadFrom(b: string, open: nat, blueprintEnd: Option<nat>,
                    components: seq<BlueprintComponent>, events: seq<string>)
    : (r: Parse<(seq<BlueprintComponent>, seq<string>)>)
    requires open < |b|
    decreases |b| - open, 0
  {
    ParseTags(b, open + 1, FindChar(b, '>', open + 1), blueprintEnd, components, events)
  }

  /** While a tag comes before the end marker, the loop reads it and goes on from the next `<`. */
  lemma {:induction false} StepPass(b: string, w: Walk, blueprintEnd: Option<nat>, from: nat,
                 components: seq<BlueprintComponent>, events: seq<string>, open: nat)
    requires w.start <= |b| && Before(w.end, blueprintEnd)
    requires TagRead(b, w) == Parsed((from, components, events)) && FindChar(b, '<', from) == Some(open)
    ensures ParseTags(b, w.start, w.end, blueprintEnd, w.components, w.events)
         == ReadFrom(b, open, blueprintEnd, components, events)
  {
  }

  /** Where one pass of the loop leaves the walk: the tag at `w` read, and `start` just past the next `<`. */
  function NextWalk(b: string, w: Walk): (r: Parse<Walk>)
    requires w.start <= |b|
    ensures r.Parsed? ==> w.start < r.value.start <= |b|
  {
    match TagRead(b, w)
    case Malformed => Malformed
    case Parsed((from, components, events)) =>
      match FindChar(b, '<', from)
      case None => Malformed
      case Some(open) => Parsed(Walk(open + 1, FindChar(b, '>', open + 1), components, events))
  }

  /** While a tag comes before the end marker, the loop makes one pass and goes on from where it leaves the walk. */
  lemma {:induction false} StepNext(b: string, w: Walk, blueprintEnd: Option<nat>)
    requires w.start <= |b| && Before(w.end, blueprintEnd)
    ensures NextWalk(b, w).Malformed? ==> ParseTags(b, w.start, w.end, blueprintEnd, w.components, w.events) == Malformed
    ensures NextWalk(b, w).Parsed? ==> var n := NextWalk(b, w).value;
      ParseTags(b, w.start, w.end, blueprintEnd, w.components, w.events)
      == ParseTags(b, n.start, n.end, blueprintEnd, n.components, n.events)
  {
  }

  /**
   * `parseBlueprint` up to the point where it stores its result: the name is the quoted value
   * after the first `Name`; the tags that follow the object's own tag, up to `</object>`, give
   * the components and the events to listen for, in text order.
   */
  function ParseBlueprint(b: string): (r: Parse<Blueprint>)
  {
    match Header(b)
    case Malformed => Malformed
    case Parsed((name, start)) =>
      match ParseTags(b, start, FindChar(b, '>', start), FindStr(b, ObjectEnd, 0), [], [])
      case Malformed => Malformed
      case Parsed((components, events)) => Parsed(Blueprint(name, components, events))
  }

  /**
   * The first lines of `parseBlueprint`: the object's name is the quoted value after the first
   * `Name`, and the walk over the tags starts just after the next `<`.
   */
  function Header(b: string): (r: Parse<(string, nat)>)
    ensures r.Parsed? ==> r.value.1 <= |b|
  {
    var open := FindCharFrom(b, '"', FindStr(b, "Name", 0));
    if open.None? then Malformed
    else
      var start := open.value + 1;
      var tag := FindChar(b, '<', start);
      if tag.None? then Malformed
      else Parsed((Slice(b, start, FindChar(b, '"', start)), tag.value + 1))
  }

  // ----- loadBlueprints -----

  /** `getline` keeps a line unless its first character is `#` or a newline (an empty line reads `'\0'`). */
  predicate KeptLine(line: string)
  {
    |line| == 0 || (line[0] != '#' && line[0] != '\n')
  }

  /** The kept lines, joined without separators (`fileText += line`). */
  function JoinKept(lines: seq<string>): (r: string)
  {
    if lines == [] then []
    else JoinKept(lines[..|lines| - 1]) + (if KeptLine(lines[|lines| - 1]) then lines[|lines| - 1] else [])
  }

  /** The flattened text: the kept lines, joined, with every tab and then every newline erased. */
  function Flatten(lines: seq<string>): (r: string)
    ensures '\t' !in r && '\n' !in r
  {
    Remove(Remove(JoinKept(lines), '\t'), '\n')
  }

  /**
   * The splitting loop of `loadBlueprints`: from `start`, each block runs up to and including
   * the next `</object>`; the text after the last marker forms no block.
   */
  function Chunks(text: string, start: nat): (r: seq<string>)
    requires start <= |text|
    decreases |text| - start
  {
    match FindStr(text, ObjectEnd, start)
    case None => []
    case Some(pos) => [text[start..pos + |ObjectEnd|]] + Chunks(text, pos + |ObjectEnd|)
  }

  /** At the end of the text the splitting loop cuts nothing. */
  lemma {:induction false} ChunksEnd(text: string)
    ensures Chunks(text, |text|) == []
  {
    assert FindStr(text, ObjectEnd, |text|) == None;
  }

  /** Where the search from `start` stops at the end of `t`, the splitting loop cuts `t` and goes on after it. */
  lemma {:induction false} ChunkStart(text: string, start: nat, t: string)
    requires |ObjectEnd| <= |t| && start + |t| <= |text| && text[start..start + |t|] == t
    requires FindStr(text, ObjectEnd, start) == Some(start + |t| - |ObjectEnd|)
    ensures Chunks(text, start) == [t] + Chunks(text, start + |t|)
  {
  }

  /**
   * One pass of the splitting loop: when the blocks before `start` are `done`, the block up to
   * the next marker comes next, and the blocks after it follow.
   */
  lemma {:induction false} ChunkStep(text: string, start: nat, done: seq<string>)
    requires start <= |text| && FindStr(text, ObjectEnd, start).Some?
    requires Chunks(text, 0) == done + Chunks(text, start)
    ensures var stop := FindStr(text, ObjectEnd, start).value + |ObjectEnd|;
      && start < stop <= |text|
      && Chunks(text, 0) == (done + [text[start..stop]]) + Chunks(text, stop)
      && |done| < |Chunks(text, 0)| && Chunks(text, 0)[|done|] == text[start..stop]
  {
    var stop := FindStr(text, ObjectEnd, start).value + |ObjectEnd|;
    var block, rest := text[start..stop], Chunks(text, stop);
    assert Chunks(text, start) == [block] + rest;
    assert done + ([block] + rest) == (done + [block]) + rest;
    assert ((done + [block]) + rest)[|done|] == block;
  }

  /** The values of the results that parsed, in order. */
  function Successes<T>(results: seq<Parse<T>>): (r: seq<T>)
    ensures |r| <= |results|
  {
    if results == [] then []
    else
      var rest := Successes(results[..|results| - 1]);
      match results[|results| - 1]
      case Malformed => rest
      case Parsed(v) => rest + [v]
  }

  /** One more result adds its value after the others', if it parsed. */
  lemma {:induction false} SuccessesLast<T>(results: seq<Parse<T>>, r: Parse<T>)
    ensures Successes(results + [r]) == Successes(results) + (if r.Parsed? then [r.value] else [])
  {
    assert (results + [r])[..|results|] == results;
  }

  /** When every result parsed, the values are the results' values, one for one. */
  lemma {:induction false} SuccessesAll<T>(results: seq<Parse<T>>)
    requires forall i :: 0 <= i < |results| ==> results[i].Parsed?
    ensures |Successes(results)| == |results|
    ensures forall i :: 0 <= i < |results| ==> Successes(results)[i] == results[i].value
    decreases |results|
  {
    if results != [] {
      var n := |results| - 1;
      SuccessesAll(results[..n]);
      assert results == results[..n] + [results[n]];
      SuccessesLast(results[..n], results[n]);
    }
  }

  /**
   * Every block parses: `parseBlueprint` never searches on from a wrapped-around position in it.
   * On other text the source does not stop: for `<object></object>` it reads the same tag again
   * and again.
   */
  ghost predicate Parses(chunks: seq<string>)
  {
    forall block :: block in chunks ==> ParseBlueprint(block).Parsed?
  }

  /**
   * The blueprints of the blocks, in text order. The loader is only given blocks that all parse
   * (`Parses`); the function itself passes over a block that does not.
   */
  function ParseAll(chunks: seq<string>): seq<Blueprint>
  {
    Successes(seq(|chunks|, i requires 0 <= i < |chunks| => ParseBlueprint(chunks[i])))
  }

  /** When every block parses, the blueprints are the parses of the blocks, one for one. */
  lemma {:induction false} ParseAllParsed(chunks: seq<string>)
    requires forall i :: 0 <= i < |chunks| ==> ParseBlueprint(chunks[i]).Parsed?
    ensures |ParseAll(chunks)| == |chunks|
    ensures forall i :: 0 <= i < |chunks| ==> ParseAll(chunks)[i] == ParseBlueprint(chunks[i]).value
  {
    SuccessesAll(seq(|chunks|, i requires 0 <= i < |chunks| => ParseBlueprint(chunks[i])));
  }

  /** The blueprint table after storing `blueprints` in order: `blueprintMap[name] = blueprint`. */
  function StoreAll(table: map<string, Blueprint>, blueprints: seq<Blueprint>): map<string, Blueprint>
  {
    if blueprints == [] then table
    else StoreAll(table, blueprints[..|blueprints| - 1])[blueprints[|blueprints| - 1].name := blueprints[|blueprints| - 1]]
  }

  /**
   * The table `m` is what storing the blueprints of the blocks `done`, in order, leaves of `table`.
   * Stated for every sequence equal to `done`, so that the parses are only unfolded where a
   * caller asks about the blueprints of a particular sequence of blocks.
   */
  ghost predicate Loaded(table: map<string, Blueprint>, done: seq<string>, m: map<string, Blueprint>)
  {
    forall chunks :: chunks == done ==> m == StoreAll(table, ParseAll(chunks))
  }

  /** Loading one more block stores its blueprint over what the earlier blocks left, if it parses. */
  lemma {:induction false} StoreNext(table: map<string, Blueprint>, chunks: seq<string>, chunk: string)
    ensures ParseBlueprint(chunk).Malformed? ==>
      StoreAll(table, ParseAll(chunks + [chunk])) == StoreAll(table, ParseAll(chunks))
    ensures ParseBlueprint(chunk).Parsed? ==> var b := ParseBlueprint(chunk).value;
      StoreAll(table, ParseAll(chunks + [chunk])) == StoreAll(table, ParseAll(chunks))[b.name := b]
  {
    var results := seq(|chunks|, i requires 0 <= i < |chunks| => ParseBlueprint(chunks[i]));
    assert seq(|chunks + [chunk]|, i requires 0 <= i < |chunks + [chunk]| => ParseBlueprint((chunks + [chunk])[i]))
      == results + [ParseBlueprint(chunk)];
    SuccessesLast(results, ParseBlueprint(chunk));
    if ParseBlueprint(chunk).Parsed? {
      var all := ParseAll(chunks) + [ParseBlueprint(chunk).value];
      assert all[..|all| - 1] == ParseAll(chunks);
    }
  }

  /** Storing one blueprint stores it under its name. */
  lemma {:induction false} StoreOne(table: map<string, Blueprint>, blueprints: seq<Blueprint>)
    requires |blueprints| == 1
    ensures StoreAll(table, blueprints) == table[blueprints[0].name := blueprints[0]]
  {
    assert blueprints[..0] == [];
  }

  /** Of several blueprints with one name, the last one stored is the one the table keeps. */
  lemma {:induction false} StoreAllLastWins(table: map<string, Blueprint>, blueprints: seq<Blueprint>, i: nat)
    requires i < |blueprints|
    requires forall j :: i < j < |blueprints| ==> blueprints[j].name != blueprints[i].name
    ensures blueprints[i].name in StoreAll(table, blueprints)
    ensures StoreAll(table, blueprints)[blueprints[i].name] == blueprints[i]
    decreases |blueprints|
  {
    var n := |blueprints| - 1;
    if i < n {
      var prefix := blueprints[..n];
      assert prefix[i] == blueprints[i];
      StoreAllLastWins(table, prefix, i);
    }
  }

  /** A name that no stored blueprint carries keeps the entry it had. */
  lemma {:induction false} StoreAllKeeps(table: map<string, Blueprint>, blueprints: seq<Blueprint>, name: string)
    requires name in table
    requires forall j :: 0 <= j < |blueprints| ==> blueprints[j].name != name
    ensures name in StoreAll(table, blueprints) && StoreAll(table, blueprints)[name] == table[name]
    decreases |blueprints|
  {
    if blueprints != [] {
      var n := |blueprints| - 1;
      assert forall j :: 0 <= j < n ==> blueprints[..n][j] == blueprints[j];
      StoreAllKeeps(table, blueprints[..n], name);
    }
  }

  /** The names in the table after storing are the names it had and the names of the stored blueprints. */
  lemma {:induction false} StoreAllKeys(table: map<string, Blueprint>, blueprints: seq<Blueprint>)
    ensures StoreAll(table, blueprints).Keys == table.Keys + set b | b in blueprints :: b.name
    decreases |blueprints|
  {
    if blueprints != [] {
      var n := |blueprints| - 1;
      StoreAllKeys(table, blueprints[..n]);
      assert blueprints == blueprints[..n] + [blueprints[n]];
    }
  }
}
