/**
 * The blueprint text format as the loader expects it, and the proof that the loader reads it
 * back: for every well-formed object definition, `ParseBlueprint` of its text yields the
 * blueprint it describes, and loading the text of several objects yields one blueprint each.
 */
module BlueprintText {
  import opened Wrappers
  import opened Text
  import opened Blueprints
  import opened Sequences

  /** A `key="value"` pair of a component tag. */
  datatype Attribute = Attribute(key: string, value: string)

  /** A tag inside an object: a `component` with its attributes, or a tag declaring an event to listen for. */
  datatype Tag =
    | ComponentTag(componentName: string, attributes: seq<Attribute>)
    | ListenTag(tagName: string, eventName: string)

  /** An object block: its name and its tags in text order. */
  datatype ObjectDef = ObjectDef(name: string, tags: seq<Tag>)

  // ----- well-formedness -----

  /** No quote, angle bracket, slash, tab or newline: text that cannot end a value or a tag. */
  predicate Plain(s: string)
  {
    '"' !in s && '<' !in s && '>' !in s && '/' !in s && '\t' !in s && '\n' !in s
  }

  /** Plain text without blanks or `=`: usable as a key or a tag name. */
  predicate Word(s: string)
  {
    Plain(s) && ' ' !in s && '=' !in s
  }

  /** Values are non-empty, since the closing quote is searched for from one past the value's first character. */
  predicate WellFormedAttribute(a: Attribute)
  {
    Word(a.key) && Plain(a.value) && a.value != []
  }

  /** A listen tag's name has no `N`, so that the search for `Name` lands on its attribute. */
  predicate WellFormedTag(t: Tag)
  {
    match t
    case ComponentTag(name, attributes) =>
      Plain(name) && forall i :: 0 <= i < |attributes| ==> WellFormedAttribute(attributes[i])
    case ListenTag(tagName, eventName) =>
      Word(tagName) && 'N' !in tagName && tagName != "component" && Plain(eventName)
  }

  predicate WellFormed(o: ObjectDef)
  {
    Plain(o.name) && forall i :: 0 <= i < |o.tags| ==> WellFormedTag(o.tags[i])
  }

  // ----- rendering -----

  function AttributeText(a: Attribute): string
  {
    " " + a.key + "=\"" + a.value + "\""
  }

  function AttributesText(attributes: seq<Attribute>): string
  {
    if attributes == [] then "" else AttributeText(attributes[0]) + AttributesText(attributes[1..])
  }

  const ComponentHead: string := "component ComponentName=\""

  /** The text between a component tag's angle brackets. */
  function ComponentText(name: string, attributes: seq<Attribute>): string
  {
    ComponentHead + name + "\"" + AttributesText(attributes)
  }

  /** The text between a listen tag's angle brackets. */
  function ListenText(tagName: string, eventName: string): string
  {
    tagName + " Name=\"" + eventName + "\""
  }

  function AttributesSize(attributes: seq<Attribute>): nat
  {
    if attributes == [] then 0 else 4 + |attributes[0].key| + |attributes[0].value| + AttributesSize(attributes[1..])
  }

  /** The length of the text between a tag's angle brackets, computed from its parts. */
  function InnerSize(t: Tag): nat
  {
    match t
    case ComponentTag(name, attributes) => 26 + |name| + AttributesSize(attributes)
    case ListenTag(tagName, eventName) => |tagName| + 8 + |eventName|
  }

  /** The text between a tag's angle brackets. */
  function TagInner(t: Tag): string
  {
    match t
    case ComponentTag(name, attributes) => ComponentText(name, attributes)
    case ListenTag(tagName, eventName) => ListenText(tagName, eventName)
  }

  function TagText(t: Tag): string
  {
    "<" + TagInner(t) + ">"
  }

  function TagsText(tags: seq<Tag>): string
  {
    if tags == [] then "" else TagText(tags[0]) + TagsText(tags[1..])
  }

  /** The object's own tag, `<object Name="...">`. */
  function ObjectHead(name: string): string
  {
    "<object Name=\"" + name + "\">"
  }

  function ObjectText(o: ObjectDef): string
  {
    ObjectHead(o.name) + TagsText(o.tags) + ObjectEnd
  }

  /** The texts of several objects, in order. */
  function Texts(objects: seq<ObjectDef>): seq<string>
  {
    if objects == [] then [] else [ObjectText(objects[0])] + Texts(objects[1..])
  }

  /** The texts `texts` one after the other. */
  function Concat(texts: seq<string>): string
  {
    if texts == [] then "" else texts[0] + Concat(texts[1..])
  }

  function ObjectsText(objects: seq<ObjectDef>): string
  {
    Concat(Texts(objects))
  }

  lemma {:induction false} AttributesSizeIs(attributes: seq<Attribute>)
    ensures |AttributesText(attributes)| == AttributesSize(attributes)
    decreases |attributes|
  {
    if attributes != [] {
      AttributesSizeIs(attributes[1..]);
    }
  }

  lemma {:induction false} InnerSizeIs(t: Tag)
    ensures |TagInner(t)| == InnerSize(t) && |TagText(t)| == InnerSize(t) + 2
  {
    if t.ComponentTag? {
      AttributesSizeIs(t.attributes);
    }
  }

  // ----- meaning -----

  /** The argument table after assigning the pairs in order: a repeated key keeps its last value. */
  function Assigned(args: map<string, string>, attributes: seq<Attribute>): map<string, string>
    decreases attributes
  {
    if attributes == [] then args
    else Assigned(args[attributes[0].key := attributes[0].value], attributes[1..])
  }

  /** The component a tag adds to the blueprint: one for a component tag, none for a listen tag. */
  function TagComponents(t: Tag): seq<BlueprintComponent>
  {
    match t
    case ComponentTag(name, attributes) => [BlueprintComponent(name, Assigned(map[], attributes))]
    case ListenTag(_, _) => []
  }

  /** The event a tag adds to the blueprint: one for a listen tag, none for a component tag. */
  function TagEvents(t: Tag): seq<string>
  {
    match t
    case ComponentTag(_, _) => []
    case ListenTag(_, eventName) => [eventName]
  }

  function ComponentsOf(tags: seq<Tag>): seq<BlueprintComponent>
  {
    if tags == [] then [] else TagComponents(tags[0]) + ComponentsOf(tags[1..])
  }

  function EventsOf(tags: seq<Tag>): seq<string>
  {
    if tags == [] then [] else TagEvents(tags[0]) + EventsOf(tags[1..])
  }

  /** The blueprint an object definition describes. */
  function Meaning(o: ObjectDef): Blueprint
  {
    Blueprint(o.name, ComponentsOf(o.tags), EventsOf(o.tags))
  }

  // ----- reading the attributes back -----

  /** Within one attribute's text: where the searches of a pass of the argument loop stop. */
  lemma {:induction false} AttributeLayout(a: Attribute)
    requires WellFormedAttribute(a)
    ensures var t, k, v := AttributeText(a), |a.key|, |a.value|;
      && |t| == 4 + k + v
      && FindChar(t, '=', 0) == Some(1 + k)
      && FindChar(t, '"', 0) == Some(2 + k)
      && FindChar(t, '"', 4 + k) == Some(3 + k + v)
      && t[1..1 + k] == a.key
      && t[3 + k..3 + k + v] == a.value
  {
    AttributeOpen(a);
    AttributeClose(a);
    AttributeSlices(a);
  }

  /** The `=` and the opening quote of an attribute are the first ones in its text. */
  lemma {:induction false} AttributeOpen(a: Attribute)
    requires WellFormedAttribute(a)
    ensures var t, k := AttributeText(a), |a.key|;
      FindChar(t, '=', 0) == Some(1 + k) && FindChar(t, '"', 0) == Some(2 + k)
  {
    var a2 := " " + a.key;
    var a3 := a2 + "=\"";
    var a4 := a3 + a.value;
    FindCharPast(a2, "=\"", '=', 0);
    FindCharAppend(a3, a.value, '=', 0);
    FindCharAppend(a4, "\"", '=', 0);
    FindCharPast(a2, "=\"", '"', 0);
    FindCharAppend(a3, a.value, '"', 0);
    FindCharAppend(a4, "\"", '"', 0);
  }

  /** The closing quote of an attribute is the first quote after its value starts. */
  lemma {:induction false} AttributeClose(a: Attribute)
    requires WellFormedAttribute(a)
    ensures var t, k, v := AttributeText(a), |a.key|, |a.value|;
      FindChar(t, '"', 4 + k) == Some(3 + k + v)
  {
    var k := |a.key|;
    var a3 := " " + a.key + "=\"";
    var a4 := a3 + a.value;
    FindCharNone(a.value, '"', 1);
    FindCharSkip(a3, a.value, '"', 1);
    FindCharAppend(a4, "\"", '"', 4 + k);
  }

  /** The key and the value lie where the argument loop slices them. */
  lemma {:induction false} AttributeSlices(a: Attribute)
    ensures var t, k, v := AttributeText(a), |a.key|, |a.value|;
      && |t| == 4 + k + v && t[1..1 + k] == a.key && t[3 + k..3 + k + v] == a.value
  {
    var k, v := |a.key|, |a.value|;
    var a2 := " " + a.key;
    var a3 := a2 + "=\"";
    var a4 := a3 + a.value;
    PrefixSlice(a4, "\"", 1, 1 + k);
    PrefixSlice(a3, a.value, 1, 1 + k);
    PrefixSlice(a2, "=\"", 1, 1 + k);
    PrefixSlice(a4, "\"", 3 + k, 3 + k + v);
  }

  /**
   * One pass of the argument loop over the text `t` of a pair that follows `x`, given where the
   * searches stop within `t` and where the key and the value lie in it: the pair is assigned.
   */
  lemma {:induction false} PairAt(x: string, t: string, y: string, key: string, value: string, args: map<string, string>)
    requires |t| == 4 + |key| + |value|
    requires FindChar(t, '=', 0) == Some(1 + |key|) && FindChar(t, '"', 0) == Some(2 + |key|)
    requires FindChar(t, '"', 4 + |key|) == Some(3 + |key| + |value|)
    requires t[1..1 + |key|] == key && t[3 + |key|..3 + |key| + |value|] == value
    ensures var d, next := x + t + y, |x + t|;
      PairRead(d, |x|, args) == Parsed((args[key := value], if next < |d| then Some(next) else None))
  {
    var d, o := x + t + y, |x|;
    var equals, open, close := o + (1 + |key|), o + (2 + |key|), o + (3 + |key| + |value|);
    FindCharInside(x, t, y, '=', 0, 1 + |key|, o, equals);
    FindCharInside(x, t, y, '"', 0, 2 + |key|, o, open);
    FindCharInside(x, t, y, '"', 4 + |key|, 3 + |key| + |value|, open + 2, close);
    LiftSlice(x, t, y, 1, 1 + |key|, o + 1, equals);
    LiftSlice(x, t, y, 3 + |key|, 3 + |key| + |value|, open + 1, close);
    ArgumentPass(d, o, args, equals, open, close, |x + t|, key, value);
  }

  /** One pass of the argument loop over a well-formed pair after `x` assigns exactly that pair. */
  lemma {:induction false} ArgumentAt(x: string, a: Attribute, y: string, args: map<string, string>)
    requires WellFormedAttribute(a)
    ensures var d, next := x + AttributeText(a) + y, |x + AttributeText(a)|;
      PairRead(d, |x|, args) == Parsed((args[a.key := a.value], if next < |d| then Some(next) else None))
  {
    AttributeLayout(a);
    PairAt(x, AttributeText(a), y, a.key, a.value, args);
  }

  /** One pass of the argument loop whose three searches all succeed and read `key` and `value`. */
  lemma {:induction false} ArgumentPass(d: string, start: nat, args: map<string, string>, equals: nat, open: nat, close: nat,
                     next: nat, key: string, value: string)
    requires start < |d| && next == close + 1
    requires FindChar(d, '=', start) == Some(equals) && FindChar(d, '"', start) == Some(open)
    requires FindChar(d, '"', open + 2) == Some(close)
    requires Slice(d, start + 1, Some(equals)) == key && Slice(d, open + 1, Some(close)) == value
    ensures PairRead(d, start, args) == Parsed((args[key := value], if next < |d| then Some(next) else None))
  {
  }

  /** The argument loop of `parseComponent` reads back every pair of a well-formed attribute list that ends the text. */
  lemma {:induction false} ArgumentsRoundTrip(x: string, attributes: seq<Attribute>, args: map<string, string>)
    requires attributes != [] && forall i :: 0 <= i < |attributes| ==> WellFormedAttribute(attributes[i])
    ensures ParseArguments(x + AttributesText(attributes), |x|, args) == Parsed(Assigned(args, attributes))
    decreases |attributes|
  {
    var a, rest := attributes[0], attributes[1..];
    var t, r := AttributeText(a), AttributesText(rest);
    assert AttributesText(attributes) == t + r;
    AppendAssociates(x, t, r);
    ArgumentAt(x, a, r, args);
    if rest != [] {
      assert |r| > 0 by {
        assert r == AttributeText(rest[0]) + AttributesText(rest[1..]);
      }
      PairPass(x + t + r, |x|, args, args[a.key := a.value], |x + t|);
      ArgumentsRoundTrip(x + t, rest, args[a.key := a.value]);
    }
  }

  /** `parseComponent` unfolded once, given where its searches stop. */
  lemma {:induction false} ComponentPass(d: string, open: nat, close: nat, blank: Option<nat>, args: map<string, string>)
    requires open < close < |d|
    requires FindCharFrom(d, '"', FindStr(d, "ComponentName", 0)) == Some(open)
    requires FindChar(d, '"', open + 1) == Some(close) && FindChar(d, ' ', close) == blank
    requires blank.Some? ==> blank.value <= |d| && ParseArguments(d, blank.value, map[]) == Parsed(args)
    ensures blank.None? ==> ParseComponent(d) == Parsed(BlueprintComponent(d[open + 1..close], map[]))
    ensures blank.Some? ==> ParseComponent(d) == Parsed(BlueprintComponent(d[open + 1..close], args))
  {
  }

  /** In text that starts with a component tag's head, `ComponentName` is first found at 10. */
  lemma {:induction false} HeadNameFound(rest: string)
    ensures FindStr(ComponentHead + rest, "ComponentName", 0) == Some(10)
  {
    var d := ComponentHead + rest;
    PrefixSlice(ComponentHead, rest, 0, 10);
    PrefixSlice(ComponentHead, rest, 10, 23);
    assert ComponentHead[0..10] == "component " && ComponentHead[10..23] == "ComponentName";
    FindStrAt(d, "ComponentName", 0, 10);
  }

  /** In text that starts with a component tag's head, the first quote after 10 is at 24. */
  lemma {:induction false} HeadQuoteFound(rest: string)
    ensures FindChar(ComponentHead + rest, '"', 10) == Some(24)
  {
    var d := ComponentHead + rest;
    PrefixSlice(ComponentHead, rest, 10, 24);
    assert ComponentHead[10..24] == "ComponentName=" && d[24] == ComponentHead[24] == '"';
    FindCharAt(d, '"', 10, 24);
  }

  /** In a component tag's text, the name's opening quote is found at 24, after `ComponentName`. */
  lemma {:induction false} ComponentHeadSearch(name: string, a: string)
    ensures var d := ComponentHead + name + "\"" + a;
      FindCharFrom(d, '"', FindStr(d, "ComponentName", 0)) == Some(24)
  {
    var rest := name + "\"" + a;
    AppendAssociates(ComponentHead, name, "\"");
    AppendAssociates(ComponentHead, name + "\"", a);
    HeadNameFound(rest);
    HeadQuoteFound(rest);
  }

  /** In a component tag's text, the name's closing quote is the first quote after the name starts. */
  lemma {:induction false} ComponentNameSearch(name: string, a: string)
    requires '"' !in name
    ensures var d := ComponentHead + name + "\"" + a;
      FindChar(d, '"', 25) == Some(25 + |name|) && d[25..25 + |name|] == name
  {
    var hn := ComponentHead + name;
    FindCharNone(name, '"', 0);
    FindCharSkip(ComponentHead, name, '"', 0);
    FindCharAppend(hn, "\"", '"', 25);
    FindCharAppend(hn + "\"", a, '"', 25);
    Piece(ComponentHead, name, "\"" + a, 0, |name|);
    assert hn + ("\"" + a) == hn + "\"" + a;
  }

  /** In a component tag's text, a blank follows the name's closing quote exactly when attributes follow. */
  lemma {:induction false} ComponentBlankSearch(name: string, a: string)
    requires a == [] || a[0] == ' '
    ensures var d := ComponentHead + name + "\"" + a;
      FindChar(d, ' ', 25 + |name|) == (if a == [] then None else Some(26 + |name|))
  {
    var hn := ComponentHead + name;
    FindCharAppend(hn, "\"", ' ', 25 + |name|);
    FindCharAppend(hn + "\"", a, ' ', 25 + |name|);
  }

  /** `parseComponent` reads back the name and the argument table of a well-formed component tag. */
  lemma {:induction false} ComponentRoundTrip(name: string, attributes: seq<Attribute>)
    requires WellFormedTag(ComponentTag(name, attributes))
    ensures ParseComponent(ComponentText(name, attributes)) == Parsed(BlueprintComponent(name, Assigned(map[], attributes)))
  {
    var d, n, a := ComponentText(name, attributes), |name|, AttributesText(attributes);
    ComponentHeadSearch(name, a);
    ComponentNameSearch(name, a);
    if attributes != [] {
      assert a[0] == AttributeText(attributes[0])[0] == ' ';
    }
    ComponentBlankSearch(name, a);
    var args := Assigned(map[], attributes);
    if attributes != [] {
      ArgumentsRoundTrip(ComponentHead + name + "\"", attributes, map[]);
      ComponentPass(d, 24, 25 + n, Some(26 + n), args);
    } else {
      ComponentPass(d, 24, 25 + n, None, args);
    }
  }

  // ----- reading the tags back -----

  /**
   * `ParseTags` over one component tag whose brackets are at `o` and `o + len + 1`, followed by a
   * `<`: the component is appended and the reading moves on to the tag after it.
   */
  lemma {:induction false} ComponentTagPass(b: string, o: nat, len: nat, blueprintEnd: nat, c: BlueprintComponent,
                         components: seq<BlueprintComponent>, events: seq<string>)
    requires o + len + 2 <= blueprintEnd < |b|
    requires FindChar(b, '>', o + 1) == Some(o + 1 + len) && FindChar(b, '<', o + 1) == Some(o + len + 2)
    requires Slice(b, o + 1, FindChar(b, ' ', o + 1)) == "component"
    requires ParseComponent(Slice(b, o + 1, Some(o + 1 + len))) == Parsed(c)
    ensures ParseTags(b, o + 1, FindChar(b, '>', o + 1), Some(blueprintEnd), components, events)
         == ReadFrom(b, o + len + 2, Some(blueprintEnd), components + [c], events)
  {
    var w := Walk(o + 1, FindChar(b, '>', o + 1), components, events);
    ComponentStep(b, w, c);
    StepPass(b, w, Some(blueprintEnd), o + 1, components + [c], events, o + len + 2);
  }

  /** A pass of the loop over a `component` tag, given its parsed component and where the next `<` is. */
  lemma {:induction false} ComponentStep(b: string, w: Walk, c: BlueprintComponent)
    requires w.start <= |b| && Slice(b, w.start, FindChar(b, ' ', w.start)) == "component"
    requires ParseComponent(Slice(b, w.start, w.end)) == Parsed(c)
    ensures TagRead(b, w) == Parsed((w.start, w.components + [c], w.events))
  {
  }

  /**
   * `ParseTags` over one listen tag whose brackets are at `o` and `o + len + 1`, followed by a
   * `<`: the event is appended and the reading moves on to the tag after it.
   */
  lemma {:induction false} ListenTagPass(b: string, o: nat, len: nat, blueprintEnd: nat, nameStart: nat, word: string,
                      event: string, components: seq<BlueprintComponent>, events: seq<string>)
    requires o + len + 2 <= blueprintEnd < |b|
    requires FindChar(b, '>', o + 1) == Some(o + 1 + len) && FindChar(b, '<', nameStart) == Some(o + len + 2)
    requires Slice(b, o + 1, FindChar(b, ' ', o + 1)) == word && word != "component"
    requires ListenName(b, o + 1) == Parsed((nameStart, event))
    ensures ParseTags(b, o + 1, FindChar(b, '>', o + 1), Some(blueprintEnd), components, events)
         == ReadFrom(b, o + len + 2, Some(blueprintEnd), components, events + [event])
  {
    var w := Walk(o + 1, FindChar(b, '>', o + 1), components, events);
    ListenStep(b, w, nameStart, event);
    StepPass(b, w, Some(blueprintEnd), nameStart, components, events + [event], o + len + 2);
  }

  /** A pass of the loop over a tag that is not a `component` tag, given where its searches stop. */
  lemma {:induction false} ListenStep(b: string, w: Walk, nameStart: nat, event: string)
    requires w.start <= |b| && Slice(b, w.start, FindChar(b, ' ', w.start)) != "component"
    requires ListenName(b, w.start) == Parsed((nameStart, event))
    ensures TagRead(b, w) == Parsed((nameStart, w.components, w.events + [event]))
  {
  }

  /** The `else` branch's search for the quoted event name, given where its searches stop. */
  lemma {:induction false} ListenNamePass(b: string, start: nat, name: nat, open: nat, event: string)
    requires start <= |b| && FindStr(b, "Name", start) == Some(name) && FindChar(b, '"', name) == Some(open)
    requires Slice(b, open + 1, FindChar(b, '"', open + 1)) == event
    ensures ListenName(b, start) == Parsed((open + 1, event))
  {
  }

  /** No character of a well-formed attribute list's text is an angle bracket, a slash, a tab or a newline. */
  lemma {:induction false} AttributesChars(attributes: seq<Attribute>, c: char)
    requires forall i :: 0 <= i < |attributes| ==> WellFormedAttribute(attributes[i])
    requires c == '<' || c == '>' || c == '/' || c == '\t' || c == '\n'
    ensures c !in AttributesText(attributes)
    decreases |attributes|
  {
    if attributes != [] {
      AttributesChars(attributes[1..], c);
    }
  }

  /** None of the characters that `Plain` excludes occurs in the fixed text of a component tag. */
  lemma {:induction false} HeadChars(c: char)
    requires c == '<' || c == '>' || c == '/' || c == '\t' || c == '\n'
    ensures c !in ComponentHead && c !in " Name=\"" && c != '"'
  {
  }

  /** No character between a well-formed tag's brackets is an angle bracket, a slash, a tab or a newline. */
  lemma {:induction false} InnerChars(t: Tag, c: char)
    requires WellFormedTag(t)
    requires c == '<' || c == '>' || c == '/' || c == '\t' || c == '\n'
    ensures c !in TagInner(t) && FindChar(TagInner(t), c, 0) == None
  {
    HeadChars(c);
    if t.ComponentTag? {
      AttributesChars(t.attributes, c);
      assert TagInner(t) == ComponentHead + t.componentName + "\"" + AttributesText(t.attributes);
    } else {
      assert TagInner(t) == t.tagName + " Name=\"" + t.eventName + "\"";
    }
    assert TagInner(t)[0..] == TagInner(t);
    FindCharNone(TagInner(t), c, 0);
  }

  /**
   * The inner text `inner` of a tag sits between a `<` at `o` of `b` and the `>` after it,
   * and the next tag's `<` (or the end marker's) follows at once.
   */
  predicate TagLayout(b: string, o: nat, inner: string)
  {
    Placed(b, inner, o + 1) && o + |inner| + 2 < |b| && b[o + 1 + |inner|] == '>' && b[o + |inner| + 2] == '<'
  }

  /** The `>` that closes the tag is the first one after its `<`. */
  lemma {:induction false} CloseBracket(b: string, o: nat, inner: string)
    requires TagLayout(b, o, inner) && FindChar(inner, '>', 0) == None
    ensures FindChar(b, '>', o + 1) == Some(o + 1 + |inner|)
  {
    FindCharOver(b, inner, o + 1, '>', 0, o + 1);
  }

  /** From inside the tag, the next `<` is the one that follows the tag. */
  lemma {:induction false} NextOpen(b: string, o: nat, inner: string, at: nat)
    requires TagLayout(b, o, inner) && FindChar(inner, '<', 0) == None && o + 1 <= at <= o + 1 + |inner|
    ensures FindChar(b, '<', at) == Some(o + |inner| + 2)
  {
    FindCharNoneLater(inner, '<', 0, at - (o + 1));
    FindCharOver(b, inner, o + 1, '<', at - (o + 1), at);
    assert FindChar(b, '<', o + 1 + |inner|) == FindChar(b, '<', o + |inner| + 2);
  }

  /** The first word inside the tag: the text up to the first blank. */
  lemma {:induction false} FirstWord(b: string, o: nat, inner: string, w: string)
    requires TagLayout(b, o, inner) && ' ' !in w && |w| < |inner| && inner[..|w|] == w && inner[|w|] == ' '
    ensures Slice(b, o + 1, FindChar(b, ' ', o + 1)) == w
  {
    assert inner[0..|w|] == w;
    FindCharAt(inner, ' ', 0, |w|);
    FindCharIn(b, inner, o + 1, ' ', 0, |w|, o + 1, o + 1 + |w|);
    SliceIn(b, inner, o + 1, 0, |w|, o + 1, o + 1 + |w|);
  }

  lemma {:induction false} ComponentFirstWord(name: string, attributes: seq<Attribute>)
    ensures var inner := ComponentText(name, attributes); 9 < |inner| && inner[..9] == "component" && inner[9] == ' '
  {
    PrefixSlice(ComponentHead + name + "\"", AttributesText(attributes), 0, 9);
    PrefixSlice(ComponentHead + name, "\"", 0, 9);
    PrefixSlice(ComponentHead, name, 0, 9);
  }

  // ----- one tag -----

  /**
   * Where the loader looks for the pieces of tag `t` whose `<` is at `o` of `b`: the `>` that
   * closes it, the `<` that follows it, its first word, and the component or the event it reads.
   */
  predicate TagFound(b: string, o: nat, t: Tag)
  {
    && FindChar(b, '>', o + 1) == Some(o + 1 + InnerSize(t))
    && match t
       case ComponentTag(name, attributes) =>
         && FindChar(b, '<', o + 1) == Some(o + InnerSize(t) + 2)
         && Slice(b, o + 1, FindChar(b, ' ', o + 1)) == "component"
         && ParseComponent(Slice(b, o + 1, Some(o + 1 + InnerSize(t)))) == Parsed(BlueprintComponent(name, Assigned(map[], attributes)))
       case ListenTag(tagName, eventName) =>
         && FindChar(b, '<', o + 8 + |tagName|) == Some(o + InnerSize(t) + 2)
         && Slice(b, o + 1, FindChar(b, ' ', o + 1)) == tagName
         && ListenName(b, o + 1) == Parsed((o + 8 + |tagName|, eventName))
  }

  /**
   * A component tag whose brackets, first word and text are where the loader looks: the loop
   * appends its component, whatever was read before it, and goes on with the tag that follows.
   */
  lemma {:induction false} ComponentReads(b: string, o: nat, t: Tag, len: nat, blueprintEnd: nat,
                       components: seq<BlueprintComponent>, events: seq<string>)
    requires t.ComponentTag?
    requires o + len + 2 <= blueprintEnd < |b|
    requires FindChar(b, '>', o + 1) == Some(o + 1 + len) && FindChar(b, '<', o + 1) == Some(o + len + 2)
    requires Slice(b, o + 1, FindChar(b, ' ', o + 1)) == "component"
    requires ParseComponent(Slice(b, o + 1, Some(o + 1 + len))) == Parsed(BlueprintComponent(t.componentName, Assigned(map[], t.attributes)))
    ensures ReadFrom(b, o, Some(blueprintEnd), components, events)
         == ReadFrom(b, o + len + 2, Some(blueprintEnd), components + TagComponents(t), events + TagEvents(t))
  {
    ComponentTagPass(b, o, len, blueprintEnd, BlueprintComponent(t.componentName, Assigned(map[], t.attributes)),
                     components, events);
    AppendNil(events);
  }

  /**
   * A listen tag whose brackets and first word are where the loader looks, and whose name
   * `ListenName` reads: the loop appends its event and goes on with the tag that follows.
   */
  lemma {:induction false} ListenReads(b: string, o: nat, t: Tag, len: nat, blueprintEnd: nat,
                    components: seq<BlueprintComponent>, events: seq<string>)
    requires t.ListenTag? && t.tagName != "component"
    requires o + len + 2 <= blueprintEnd < |b|
    requires FindChar(b, '>', o + 1) == Some(o + 1 + len) && FindChar(b, '<', o + 8 + |t.tagName|) == Some(o + len + 2)
    requires Slice(b, o + 1, FindChar(b, ' ', o + 1)) == t.tagName
    requires ListenName(b, o + 1) == Parsed((o + 8 + |t.tagName|, t.eventName))
    ensures ReadFrom(b, o, Some(blueprintEnd), components, events)
         == ReadFrom(b, o + len + 2, Some(blueprintEnd), components + TagComponents(t), events + TagEvents(t))
  {
    ListenTagPass(b, o, len, blueprintEnd, o + 8 + |t.tagName|, t.tagName, t.eventName, components, events);
    AppendNil(components);
  }

  /** Where the loader finds the brackets, the first word and the text of a component tag laid out as `TagLayout` says. */
  lemma {:induction false} ComponentInnerAt(b: string, o: nat, inner: string, c: BlueprintComponent)
    requires TagLayout(b, o, inner) && FindChar(inner, '<', 0) == None && FindChar(inner, '>', 0) == None
    requires 9 < |inner| && inner[..9] == "component" && inner[9] == ' '
    requires ParseComponent(inner) == Parsed(c)
    ensures FindChar(b, '>', o + 1) == Some(o + 1 + |inner|) && FindChar(b, '<', o + 1) == Some(o + |inner| + 2)
    ensures Slice(b, o + 1, FindChar(b, ' ', o + 1)) == "component"
    ensures ParseComponent(Slice(b, o + 1, Some(o + 1 + |inner|))) == Parsed(c)
  {
    CloseBracket(b, o, inner);
    NextOpen(b, o, inner, o + 1);
    FirstWord(b, o, inner, "component");
    WholeSlice(b, o, inner);
  }

  /** The text between the brackets is `inner`. */
  lemma {:induction false} WholeSlice(b: string, o: nat, inner: string)
    requires Placed(b, inner, o + 1)
    ensures Slice(b, o + 1, Some(o + 1 + |inner|)) == inner
  {
    SliceIn(b, inner, o + 1, 0, |inner|, o + 1, o + 1 + |inner|);
    assert inner[0..|inner|] == inner;
  }

  /** What `ComponentInnerAt` needs to know about the text of a well-formed component tag. */
  lemma {:induction false} ComponentInner(t: Tag)
    requires t.ComponentTag? && WellFormedTag(t)
    ensures var inner := TagInner(t);
      && FindChar(inner, '<', 0) == None && FindChar(inner, '>', 0) == None
      && 9 < |inner| && inner[..9] == "component" && inner[9] == ' '
      && ParseComponent(inner) == Parsed(BlueprintComponent(t.componentName, Assigned(map[], t.attributes)))
  {
    InnerChars(t, '<');
    InnerChars(t, '>');
    ComponentFirstWord(t.componentName, t.attributes);
    ComponentRoundTrip(t.componentName, t.attributes);
  }

  /** A well-formed component tag laid out as `TagLayout` says is found where the loader looks. */
  lemma {:induction false} ComponentFound(b: string, o: nat, t: Tag)
    requires t.ComponentTag? && WellFormedTag(t) && TagLayout(b, o, TagInner(t))
    ensures TagFound(b, o, t)
  {
    InnerSizeIs(t);
    ComponentInner(t);
    ComponentInnerAt(b, o, TagInner(t), BlueprintComponent(t.componentName, Assigned(map[], t.attributes)));
  }

  /** Where the pieces of a listen tag's inner text sit. */
  lemma {:induction false} ListenLayout(tagName: string, eventName: string)
    requires WellFormedTag(ListenTag(tagName, eventName))
    ensures var inner, k, v := ListenText(tagName, eventName), |tagName|, |eventName|;
      && |inner| == k + 8 + v
      && inner[..k] == tagName && inner[k] == ' '
      && inner[k + 1..k + 5] == "Name" && FindChar(inner, 'N', 0) == Some(k + 1)
      && FindChar(inner, '"', k + 1) == Some(k + 6)
      && FindChar(inner, '"', k + 7) == Some(k + 7 + v)
      && inner[k + 7..k + 7 + v] == eventName
  {
    ListenHead(tagName, eventName);
    ListenNameSearch(tagName, eventName);
    ListenQuotes(tagName, eventName);
  }

  /** The tag name, the blank and `Name` at the start of a listen tag's inner text. */
  lemma {:induction false} ListenHead(tagName: string, eventName: string)
    ensures var inner, k := ListenText(tagName, eventName), |tagName|;
      && inner[..k] == tagName && inner[k] == ' ' && inner[k + 1..k + 5] == "Name"
  {
    var k := |tagName|;
    var a := tagName + " Name=\"";
    var a2 := a + eventName;
    PrefixSlice(a2, "\"", 0, k + 5);
    PrefixSlice(a, eventName, 0, k + 5);
    assert a[k + 1..k + 5] == "Name";
    PrefixSlice(a2, "\"", 0, k);
    PrefixSlice(a, eventName, 0, k);
  }

  /** The first `N` of a listen tag's inner text is the one of `Name`. */
  lemma {:induction false} ListenNameSearch(tagName: string, eventName: string)
    requires 'N' !in tagName
    ensures FindChar(ListenText(tagName, eventName), 'N', 0) == Some(|tagName| + 1)
  {
    var a := tagName + " Name=\"";
    FindCharPast(tagName, " Name=\"", 'N', 0);
    FindCharAppend(a, eventName, 'N', 0);
    FindCharAppend(a + eventName, "\"", 'N', 0);
  }

  /** The quotes around a listen tag's event name, and the name between them. */
  lemma {:induction false} ListenQuotes(tagName: string, eventName: string)
    requires '"' !in eventName
    ensures var inner, k, v := ListenText(tagName, eventName), |tagName|, |eventName|;
      && FindChar(inner, '"', k + 1) == Some(k + 6)
      && FindChar(inner, '"', k + 7) == Some(k + 7 + v)
      && inner[k + 7..k + 7 + v] == eventName
  {
    var k, v := |tagName|, |eventName|;
    var a := tagName + " Name=\"";
    var a2 := a + eventName;
    FindCharSkip(tagName, " Name=\"", '"', 1);
    FindCharAppend(a, eventName, '"', k + 1);
    FindCharAppend(a2, "\"", '"', k + 1);
    FindCharSkip(a, eventName, '"', 0);
    FindCharNone(eventName, '"', 0);
    FindCharAppend(a2, "\"", '"', k + 7);
    PrefixSlice(a2, "\"", k + 7, k + 7 + v);
  }

  /** `ListenName` on a listen tag laid out as `TagLayout` says, whose `Name="` ends at `k + 7` of `inner`. */
  lemma {:induction false} ListenNameAt(b: string, o: nat, inner: string, k: nat, event: string)
    requires Placed(b, inner, o + 1) && k + 7 + |event| < |inner| && inner[k + 1..k + 5] == "Name"
    requires FindChar(inner, 'N', 0) == Some(k + 1) && FindChar(inner, '"', k + 1) == Some(k + 6)
    requires FindChar(inner, '"', k + 7) == Some(k + 7 + |event|) && inner[k + 7..k + 7 + |event|] == event
    ensures ListenName(b, o + 1) == Parsed((o + 8 + k, event))
  {
    var name, open := o + 2 + k, o + 7 + k;
    ListenSearches(b, o, inner, k, event, name, open);
    ListenNamePass(b, o + 1, name, open, event);
  }

  /** Where the searches of `ListenName` stop in a listen tag laid out as `TagLayout` says. */
  lemma {:induction false} ListenSearches(b: string, o: nat, inner: string, k: nat, event: string, name: nat, open: nat)
    requires Placed(b, inner, o + 1) && k + 7 + |event| < |inner| && inner[k + 1..k + 5] == "Name"
    requires FindChar(inner, 'N', 0) == Some(k + 1) && FindChar(inner, '"', k + 1) == Some(k + 6)
    requires FindChar(inner, '"', k + 7) == Some(k + 7 + |event|) && inner[k + 7..k + 7 + |event|] == event
    requires name == o + 2 + k && open == o + 7 + k
    ensures FindStr(b, "Name", o + 1) == Some(name) && FindChar(b, '"', name) == Some(open)
    ensures Slice(b, open + 1, FindChar(b, '"', open + 1)) == event
  {
    ListenNameFound(b, o, inner, k, name);
    ListenOpenQuote(b, o, inner, k, name, open);
    ListenEventSlice(b, o, inner, k, open + 1, event);
  }

  /** The loader's search for `Name` stops where the listen tag's `Name` is. */
  lemma {:induction false} ListenNameFound(b: string, o: nat, inner: string, k: nat, name: nat)
    requires Placed(b, inner, o + 1) && k + 5 <= |inner| && inner[k + 1..k + 5] == "Name"
    requires FindChar(inner, 'N', 0) == Some(k + 1) && name == o + 2 + k
    ensures FindStr(b, "Name", o + 1) == Some(name)
  {
    FindCharIn(b, inner, o + 1, 'N', 0, k + 1, o + 1, name);
    SliceIn(b, inner, o + 1, k + 1, k + 5, name, name + 4);
    FindStrAtChar(b, "Name", o + 1, name);
  }

  /** The quote after `Name=` is the first one after `Name`. */
  lemma {:induction false} ListenOpenQuote(b: string, o: nat, inner: string, k: nat, name: nat, open: nat)
    requires Placed(b, inner, o + 1) && k + 6 < |inner| && FindChar(inner, '"', k + 1) == Some(k + 6)
    requires name == o + 2 + k && open == o + 7 + k
    ensures FindChar(b, '"', name) == Some(open)
  {
    FindCharIn(b, inner, o + 1, '"', k + 1, k + 6, name, open);
  }

  /** The text between the quotes is the event name. */
  lemma {:induction false} ListenEventSlice(b: string, o: nat, inner: string, k: nat, from: nat, event: string)
    requires Placed(b, inner, o + 1) && k + 7 + |event| < |inner| && from == o + 8 + k
    requires FindChar(inner, '"', k + 7) == Some(k + 7 + |event|) && inner[k + 7..k + 7 + |event|] == event
    ensures Slice(b, from, FindChar(b, '"', from)) == event
  {
    FindCharIn(b, inner, o + 1, '"', k + 7, k + 7 + |event|, from, from + |event|);
    SliceIn(b, inner, o + 1, k + 7, k + 7 + |event|, from, from + |event|);
  }

  /** Where the loader finds the brackets and the first word of a listen tag laid out as `TagLayout` says. */
  lemma {:induction false} ListenInnerAt(b: string, o: nat, inner: string, w: string)
    requires TagLayout(b, o, inner) && FindChar(inner, '<', 0) == None && FindChar(inner, '>', 0) == None
    requires ' ' !in w && |w| + 8 <= |inner| && inner[..|w|] == w && inner[|w|] == ' '
    ensures FindChar(b, '>', o + 1) == Some(o + 1 + |inner|) && FindChar(b, '<', o + 8 + |w|) == Some(o + |inner| + 2)
    ensures Slice(b, o + 1, FindChar(b, ' ', o + 1)) == w
  {
    CloseBracket(b, o, inner);
    NextOpen(b, o, inner, o + 8 + |w|);
    FirstWord(b, o, inner, w);
  }

  /** What `ListenInnerReads` needs to know about the text of a well-formed listen tag. */
  lemma {:induction false} ListenInner(t: Tag)
    requires t.ListenTag? && WellFormedTag(t)
    ensures var inner, k, v := TagInner(t), |t.tagName|, |t.eventName|;
      && FindChar(inner, '<', 0) == None && FindChar(inner, '>', 0) == None
      && |inner| == InnerSize(t) == k + 8 + v
      && inner[..k] == t.tagName && inner[k] == ' ' && inner[k + 1..k + 5] == "Name"
      && FindChar(inner, 'N', 0) == Some(k + 1) && FindChar(inner, '"', k + 1) == Some(k + 6)
      && FindChar(inner, '"', k + 7) == Some(k + 7 + v) && inner[k + 7..k + 7 + v] == t.eventName
  {
    InnerSizeIs(t);
    InnerChars(t, '<');
    InnerChars(t, '>');
    ListenLayout(t.tagName, t.eventName);
  }

  /** Where the loader finds the brackets, the first word and the event name of a listen tag laid out as `TagLayout` says. */
  lemma {:induction false} ListenInnerFacts(b: string, o: nat, inner: string, t: Tag)
    requires t.ListenTag? && ' ' !in t.tagName
    requires var k, v := |t.tagName|, |t.eventName|;
      && TagLayout(b, o, inner) && FindChar(inner, '<', 0) == None && FindChar(inner, '>', 0) == None
      && |inner| == k + 8 + v
      && inner[..k] == t.tagName && inner[k] == ' ' && inner[k + 1..k + 5] == "Name"
      && FindChar(inner, 'N', 0) == Some(k + 1) && FindChar(inner, '"', k + 1) == Some(k + 6)
      && FindChar(inner, '"', k + 7) == Some(k + 7 + v) && inner[k + 7..k + 7 + v] == t.eventName
    ensures FindChar(b, '>', o + 1) == Some(o + 1 + |inner|)
    ensures FindChar(b, '<', o + 8 + |t.tagName|) == Some(o + |inner| + 2)
    ensures Slice(b, o + 1, FindChar(b, ' ', o + 1)) == t.tagName
    ensures ListenName(b, o + 1) == Parsed((o + 8 + |t.tagName|, t.eventName))
  {
    ListenNameAt(b, o, inner, |t.tagName|, t.eventName);
    ListenInnerAt(b, o, inner, t.tagName);
  }

  /** Where the loader finds the brackets, the first word and the event name of a well-formed listen tag laid out as `TagLayout` says. */
  lemma {:induction false} ListenTagFacts(b: string, o: nat, t: Tag, len: nat)
    requires t.ListenTag? && WellFormedTag(t) && TagLayout(b, o, TagInner(t)) && len == InnerSize(t)
    ensures FindChar(b, '>', o + 1) == Some(o + 1 + len) && FindChar(b, '<', o + 8 + |t.tagName|) == Some(o + len + 2)
    ensures Slice(b, o + 1, FindChar(b, ' ', o + 1)) == t.tagName
    ensures ListenName(b, o + 1) == Parsed((o + 8 + |t.tagName|, t.eventName))
  {
    ListenInner(t);
    ListenInnerFacts(b, o, TagInner(t), t);
  }

  /** A well-formed listen tag laid out as `TagLayout` says is found where the loader looks. */
  lemma {:induction false} ListenFound(b: string, o: nat, t: Tag)
    requires t.ListenTag? && WellFormedTag(t) && TagLayout(b, o, TagInner(t))
    ensures TagFound(b, o, t)
  {
    ListenTagFacts(b, o, t, InnerSize(t));
  }

  /** A well-formed tag laid out as `TagLayout` says is found where the loader looks. */
  lemma {:induction false} TagFoundAt(b: string, o: nat, t: Tag)
    requires WellFormedTag(t) && TagLayout(b, o, TagInner(t))
    ensures TagFound(b, o, t)
  {
    if t.ComponentTag? {
      ComponentFound(b, o, t);
    } else {
      ListenFound(b, o, t);
    }
  }

  /** A tag found where the loader looks reads as itself: what it adds is appended, and the loop goes on after it. */
  lemma {:induction false} TagReads(b: string, o: nat, t: Tag, blueprintEnd: nat, components: seq<BlueprintComponent>, events: seq<string>)
    requires TagFound(b, o, t) && (t.ListenTag? ==> t.tagName != "component")
    requires o + InnerSize(t) + 2 <= blueprintEnd < |b|
    ensures ReadFrom(b, o, Some(blueprintEnd), components, events)
         == ReadFrom(b, o + InnerSize(t) + 2, Some(blueprintEnd), components + TagComponents(t), events + TagEvents(t))
  {
    if t.ComponentTag? {
      ComponentReads(b, o, t, InnerSize(t), blueprintEnd, components, events);
    } else {
      ListenReads(b, o, t, InnerSize(t), blueprintEnd, components, events);
    }
  }

  // ----- all the tags of an object -----

  /** Reading the first tag and then the rest adds what `ComponentsOf` and `EventsOf` list. */
  lemma {:induction false} OfFirst(tags: seq<Tag>, components: seq<BlueprintComponent>, events: seq<string>)
    requires tags != []
    ensures components + TagComponents(tags[0]) + ComponentsOf(tags[1..]) == components + ComponentsOf(tags)
    ensures events + TagEvents(tags[0]) + EventsOf(tags[1..]) == events + EventsOf(tags)
  {
    AppendAssociates(components, TagComponents(tags[0]), ComponentsOf(tags[1..]));
    AppendAssociates(events, TagEvents(tags[0]), EventsOf(tags[1..]));
  }

  // ----- the text of the tags -----

  /** The text of a tag placed at `o` of `b`, with a `<` right after it, is laid out as `TagLayout` says. */
  lemma {:induction false} TagPlaced(b: string, o: nat, t: Tag)
    requires Placed(b, TagText(t), o) && o + |TagText(t)| < |b| && b[o + |TagText(t)|] == '<'
    ensures TagLayout(b, o, TagInner(t))
  {
    var inner := TagInner(t);
    assert TagText(t) == "<" + (inner + ">");
    PlacedSplit(b, "<", inner + ">", o);
    PlacedSplit(b, inner, ">", o + 1);
    assert b[o + 1 + |inner| + 0] == ">"[0];
  }

  /** The text of a non-empty tag list starts with `<`. */
  lemma {:induction false} TagsTextStart(tags: seq<Tag>)
    requires tags != []
    ensures |TagsText(tags)| > 0 && TagsText(tags)[0] == '<'
  {
    assert TagsText(tags) == "<" + (TagInner(tags[0]) + ">" + TagsText(tags[1..]));
  }

  /** The text of a non-empty tag list placed at `o`: the first tag there, the others right after it. */
  lemma {:induction false} TagsPlaced(b: string, o: nat, tags: seq<Tag>)
    requires tags != [] && Placed(b, TagsText(tags), o)
    ensures Placed(b, TagText(tags[0]), o) && Placed(b, TagsText(tags[1..]), o + InnerSize(tags[0]) + 2)
    ensures |TagsText(tags)| == InnerSize(tags[0]) + 2 + |TagsText(tags[1..])|
    ensures tags[1..] != [] ==> b[o + InnerSize(tags[0]) + 2] == '<'
  {
    InnerSizeIs(tags[0]);
    PlacedSplit(b, TagText(tags[0]), TagsText(tags[1..]), o);
    if tags[1..] != [] {
      TagsTextStart(tags[1..]);
      assert b[o + InnerSize(tags[0]) + 2 + 0] == TagsText(tags[1..])[0];
    }
  }

  /**
   * From the tag whose `<` is at `o`, the loop of `parseBlueprint`, whatever it has read so far,
   * reads what the tag `t` means and goes on just past its `>`.
   */
  ghost predicate Reads(b: string, o: nat, t: Tag, blueprintEnd: nat)
  {
    && o + InnerSize(t) + 2 <= blueprintEnd < |b|
    && forall components, events ::
         ReadFrom(b, o, Some(blueprintEnd), components, events)
         == ReadFrom(b, o + InnerSize(t) + 2, Some(blueprintEnd), components + TagComponents(t), events + TagEvents(t))
  }

  /** A tag found where the loader looks is read as its meaning. */
  lemma {:induction false} TagReadsAll(b: string, o: nat, t: Tag, blueprintEnd: nat)
    requires TagFound(b, o, t) && (t.ListenTag? ==> t.tagName != "component")
    requires o + InnerSize(t) + 2 <= blueprintEnd < |b|
    ensures Reads(b, o, t, blueprintEnd)
  {
    forall components, events
      ensures ReadFrom(b, o, Some(blueprintEnd), components, events)
           == ReadFrom(b, o + InnerSize(t) + 2, Some(blueprintEnd), components + TagComponents(t), events + TagEvents(t))
    {
      TagReads(b, o, t, blueprintEnd, components, events);
    }
  }

  /** Tags read one after the other from `o`, the last one followed by the `<` of the end marker at `blueprintEnd`. */
  ghost predicate Laid(b: string, o: nat, tags: seq<Tag>, blueprintEnd: nat)
    decreases |tags|
  {
    if tags == [] then o == blueprintEnd
    else Reads(b, o, tags[0], blueprintEnd) && Laid(b, o + InnerSize(tags[0]) + 2, tags[1..], blueprintEnd)
  }

  /** The text of well-formed tags after `x`, followed by text that starts with `<`, lays them out up to that `<`. */
  lemma {:induction false} TagsLaid(x: string, tags: seq<Tag>, y: string, blueprintEnd: nat)
    requires forall i :: 0 <= i < |tags| ==> WellFormedTag(tags[i])
    requires y != [] && y[0] == '<' && blueprintEnd == |x| + |TagsText(tags)|
    ensures Laid(x + TagsText(tags) + y, |x|, tags, blueprintEnd)
    decreases |tags|
  {
    if tags != [] {
      var t, rest := TagText(tags[0]), TagsText(tags[1..]);
      assert TagsText(tags) == t + rest;
      Regroup(x, t, rest, y);
      assert (rest + y)[0] == '<' by {
        if tags[1..] != [] {
          TagsTextStart(tags[1..]);
        }
      }
      InnerSizeIs(tags[0]);
      TagsLaid(x + t, tags[1..], y, blueprintEnd);
      TagAt(x, tags[0], rest + y, blueprintEnd);
      LaidFirst(x + TagsText(tags) + y, |x|, tags, blueprintEnd, |x + t|);
    }
  }

  /** Regrouping a text made of four pieces. */
  lemma {:induction false} Regroup(x: string, t: string, rest: string, y: string)
    ensures x + (t + rest) + y == x + t + rest + y == x + t + (rest + y)
  {
    AppendAssociates(x, t, rest);
    AppendAssociates(x + t, rest, y);
  }

  /** The text of a well-formed tag after `x`, followed by text that starts with `<`, is read as its meaning. */
  lemma {:induction false} TagAt(x: string, t: Tag, z: string, blueprintEnd: nat)
    requires WellFormedTag(t) && z != [] && z[0] == '<'
    requires |x| + InnerSize(t) + 2 <= blueprintEnd < |x + TagText(t) + z|
    ensures Reads(x + TagText(t) + z, |x|, t, blueprintEnd)
  {
    var b := x + TagText(t) + z;
    InnerSizeIs(t);
    assert Placed(b, TagText(t), |x|);
    assert b[|x| + InnerSize(t) + 2] == z[0];
    TagLaid(b, |x|, t, blueprintEnd);
  }

  /** The text of a well-formed tag placed at `o` of `b`, followed by a `<`, is read as its meaning. */
  lemma {:induction false} TagLaid(b: string, o: nat, t: Tag, blueprintEnd: nat)
    requires WellFormedTag(t) && Placed(b, TagText(t), o)
    requires o + InnerSize(t) + 2 <= blueprintEnd < |b| && b[o + InnerSize(t) + 2] == '<'
    ensures Reads(b, o, t, blueprintEnd)
  {
    InnerSizeIs(t);
    TagPlaced(b, o, t);
    TagFoundAt(b, o, t);
    TagReadsAll(b, o, t, blueprintEnd);
  }

  /** A tag read at `o` followed by tags laid out after it, from `next`, lays out the whole list. */
  lemma {:induction false} LaidFirst(b: string, o: nat, tags: seq<Tag>, blueprintEnd: nat, next: nat)
    requires tags != [] && Reads(b, o, tags[0], blueprintEnd)
    requires next == o + InnerSize(tags[0]) + 2 && Laid(b, next, tags[1..], blueprintEnd)
    ensures Laid(b, o, tags, blueprintEnd)
  {
  }

  /** At the end marker the loop of `parseBlueprint` stops, with what it has read. */
  lemma {:induction false} ReadEnd(b: string, blueprintEnd: nat, components: seq<BlueprintComponent>, events: seq<string>)
    requires blueprintEnd < |b|
    ensures ReadFrom(b, blueprintEnd, Some(blueprintEnd), components, events) == Parsed((components, events))
  {
  }

  /** The loop of `parseBlueprint` reads well-formed tags laid out up to the end marker, in order. */
  lemma {:induction false} TagsRead(b: string, o: nat, tags: seq<Tag>, blueprintEnd: nat,
                                    components: seq<BlueprintComponent>, events: seq<string>)
    requires Laid(b, o, tags, blueprintEnd) && blueprintEnd < |b|
    ensures ReadFrom(b, o, Some(blueprintEnd), components, events)
         == Parsed((components + ComponentsOf(tags), events + EventsOf(tags)))
    decreases |tags|
  {
    if tags == [] {
      ReadEnd(b, blueprintEnd, components, events);
      AppendNil(components);
      AppendNil(events);
    } else {
      TagsRead(b, o + InnerSize(tags[0]) + 2, tags[1..], blueprintEnd,
               components + TagComponents(tags[0]), events + TagEvents(tags[0]));
      OfFirst(tags, components, events);
    }
  }

  // ----- a whole object -----

  /** No slash, tab or newline occurs in the text of well-formed tags. */
  lemma {:induction false} TagsChars(tags: seq<Tag>, c: char)
    requires forall i :: 0 <= i < |tags| ==> WellFormedTag(tags[i])
    requires c == '/' || c == '\t' || c == '\n'
    ensures c !in TagsText(tags)
    decreases |tags|
  {
    if tags != [] {
      InnerChars(tags[0], c);
      TagsChars(tags[1..], c);
    }
  }

  /** The first `</object>` of a text that ends with it, and has no other slash, is the one at its end. */
  lemma {:induction false} ObjectEndAt(x: string)
    requires '/' !in x
    ensures FindStr(x + ObjectEnd, ObjectEnd, 0) == Some(|x|) && (x + ObjectEnd)[|x|] == '<'
  {
    assert ObjectEnd[1] == '/' && ObjectEnd[0] == '<';
    FindStrAtEnd(x, ObjectEnd);
  }

  /** In an object's text, the quote that opens its name is found at 13, after `Name`. */
  lemma {:induction false} ObjectHeadSearch(name: string, rest: string)
    ensures var b := ObjectHead(name) + rest;
      FindCharFrom(b, '"', FindStr(b, "Name", 0)) == Some(13)
  {
    var b := ObjectHead(name) + rest;
    assert b[..14] == "<object Name=\"";
    assert b[0..8] == "<object " && b[8..12] == "Name" && b[8..13] == "Name=";
    FindStrAt(b, "Name", 0, 8);
    FindCharAt(b, '"', 8, 13);
  }

  /** In an object's text, the name runs from 14 up to the first quote after it, and the first tag's `<` follows its `">`. */
  lemma {:induction false} ObjectNameSearch(name: string, rest: string)
    requires '"' !in name && '<' !in name && |rest| > 0 && rest[0] == '<'
    ensures var b, n := ObjectHead(name) + rest, |name|;
      && FindChar(b, '"', 14) == Some(14 + n) && b[14..14 + n] == name
      && FindChar(b, '<', 14) == Some(16 + n)
  {
    var p := "<object Name=\"";
    var pn := p + name;
    var b := ObjectHead(name) + rest;
    assert b == pn + ("\">" + rest);
    FindCharNone(name, '"', 0);
    FindCharSkip(p, name, '"', 0);
    FindCharAppend(pn, "\">" + rest, '"', 14);
    FindCharNone(name, '<', 0);
    FindCharSkip(p, name, '<', 0);
    FindCharAppend(pn, "\">" + rest, '<', 14);
    FindCharSkip("\">", rest, '<', 0);
    Piece(p, name, "\">" + rest, 0, |name|);
  }

  /** `parseBlueprint` unfolded, given where its searches stop and what its loop reads. */
  lemma {:induction false} ObjectPass(b: string, name: string, blueprintEnd: nat, tag: nat, components: seq<BlueprintComponent>, events: seq<string>)
    requires 14 + |name| <= |b| && tag < |b|
    requires FindStr(b, ObjectEnd, 0) == Some(blueprintEnd)
    requires FindCharFrom(b, '"', FindStr(b, "Name", 0)) == Some(13)
    requires FindChar(b, '"', 14) == Some(14 + |name|) && b[14..14 + |name|] == name
    requires FindChar(b, '<', 14) == Some(tag)
    requires ReadFrom(b, tag, Some(blueprintEnd), [], []) == Parsed((components, events))
    ensures ParseBlueprint(b) == Parsed(Blueprint(name, components, events))
  {
  }

  /** No slash occurs before the end marker of a well-formed object's text. */
  lemma {:induction false} BodyChars(o: ObjectDef)
    requires WellFormed(o)
    ensures '/' !in ObjectHead(o.name) + TagsText(o.tags)
  {
    assert '/' !in ObjectHead(o.name) by {
      assert ObjectHead(o.name) == "<object Name=\"" + o.name + "\">";
    }
    TagsChars(o.tags, '/');
  }

  /** The end marker of a well-formed object's text is found at its end. */
  lemma {:induction false} ObjectEndFound(o: ObjectDef)
    requires WellFormed(o)
    ensures var x := ObjectHead(o.name) + TagsText(o.tags);
      FindStr(ObjectText(o), ObjectEnd, 0) == Some(|x|) && ObjectText(o)[|x|] == '<'
  {
    BodyChars(o);
    ObjectEndAt(ObjectHead(o.name) + TagsText(o.tags));
  }

  /** `parseBlueprint` reads back the blueprint that a well-formed object definition describes. */
  lemma {:induction false} ObjectRoundTrip(o: ObjectDef)
    requires WellFormed(o)
    ensures ParseBlueprint(ObjectText(o)) == Parsed(Meaning(o))
  {
    var b, n, tags := ObjectText(o), |o.name|, TagsText(o.tags);
    var blueprintEnd := |ObjectHead(o.name) + tags|;
    var rest := tags + ObjectEnd;
    assert b == ObjectHead(o.name) + rest;
    TagsTextOpens(o.tags);
    ObjectEndFound(o);
    ObjectHeadSearch(o.name, rest);
    ObjectNameSearch(o.name, rest);
    ObjectTagsRead(o, blueprintEnd);
    ObjectPass(b, o.name, blueprintEnd, 16 + n, ComponentsOf(o.tags), EventsOf(o.tags));
  }

  /** The tags of a well-formed object, after its head, are followed by a `<`. */
  lemma {:induction false} TagsTextOpens(tags: seq<Tag>)
    ensures (TagsText(tags) + ObjectEnd)[0] == '<'
  {
    if tags != [] {
      TagsTextStart(tags);
    }
  }

  /** The loop of `parseBlueprint`, started at the first tag of a well-formed object, reads all its tags. */
  lemma {:induction false} ObjectTagsRead(o: ObjectDef, blueprintEnd: nat)
    requires WellFormed(o) && blueprintEnd == |ObjectHead(o.name) + TagsText(o.tags)|
    ensures ReadFrom(ObjectText(o), 16 + |o.name|, Some(blueprintEnd), [], [])
      == Parsed((ComponentsOf(o.tags), EventsOf(o.tags)))
  {
    var b := ObjectText(o);
    assert |ObjectHead(o.name)| == 16 + |o.name|;
    TagsLaid(ObjectHead(o.name), o.tags, ObjectEnd, blueprintEnd);
    TagsRead(b, 16 + |o.name|, o.tags, blueprintEnd, [], []);
    AppendNil(ComponentsOf(o.tags));
    AppendNil(EventsOf(o.tags));
  }

  // ----- several objects -----

  /** A block as the splitting loop cuts it: text without a slash, then the end marker. */
  predicate Block(t: string)
  {
    |ObjectEnd| <= |t| && t[|t| - |ObjectEnd|..] == ObjectEnd && '/' !in t[..|t| - |ObjectEnd|]
  }

  /** The text of a well-formed object is a block. */
  lemma {:induction false} ObjectBlock(ob: ObjectDef)
    requires WellFormed(ob)
    ensures Block(ObjectText(ob))
  {
    var y, t := ObjectHead(ob.name) + TagsText(ob.tags), ObjectText(ob);
    BodyChars(ob);
    assert t == y + ObjectEnd;
    assert t[..|y|] == y && t[|y|..] == ObjectEnd;
  }

  /** The texts of well-formed objects are blocks. */
  lemma {:induction false} TextsAreBlocks(objects: seq<ObjectDef>)
    requires forall i :: 0 <= i < |objects| ==> WellFormed(objects[i])
    ensures forall i :: 0 <= i < |Texts(objects)| ==> Block(Texts(objects)[i])
    decreases |objects|
  {
    if objects != [] {
      ObjectBlock(objects[0]);
      TextsAreBlocks(objects[1..]);
    }
  }

  /** A block followed by `y`: the splitting loop's search from its start stops at its end marker. */
  lemma {:induction false} ChunkAt(x: string, t: string, y: string)
    requires Block(t)
    ensures FindStr(x + t + y, ObjectEnd, |x|) == Some(|x| + |t| - |ObjectEnd|) && (x + t + y)[|x|..|x| + |t|] == t
  {
    var text, z := x + t + y, t[..|t| - |ObjectEnd|];
    PlacedMiddle(x, t, y);
    assert t == z + ObjectEnd;
    assert ObjectEnd[1] == '/' && ObjectEnd[0] == '<';
    FindStrPlaced(text, z, ObjectEnd, |x|);
    assert |x| + |z| == |x| + |t| - |ObjectEnd|;
    PlacedSlice(text, t, |x|);
  }

  /** The splitting loop, started just after `x`, cuts the blocks that follow up to the end of the text. */
  lemma {:induction false} ChunksAt(x: string, texts: seq<string>)
    requires forall i :: 0 <= i < |texts| ==> Block(texts[i])
    ensures Chunks(x + Concat(texts), |x|) == texts
    decreases |texts|
  {
    if texts == [] {
      AppendNil(x);
      ChunksEnd(x);
    } else {
      ChunksAt(x + texts[0], texts[1..]);
      ChunkCut(x, texts[0], Concat(texts[1..]));
      ChunksFirst(x, texts);
    }
  }

  /** The first block is cut first, and the splitting loop goes on after it as it would just after that block. */
  lemma {:induction false} ChunksFirst(x: string, texts: seq<string>)
    requires texts != []
    requires Chunks(x + texts[0] + Concat(texts[1..]), |x|)
          == [texts[0]] + Chunks(x + texts[0] + Concat(texts[1..]), |x + texts[0]|)
    requires Chunks(x + texts[0] + Concat(texts[1..]), |x + texts[0]|) == texts[1..]
    ensures Chunks(x + Concat(texts), |x|) == texts
  {
    AppendAssociates(x, texts[0], Concat(texts[1..]));
    HeadTail(texts);
  }

  /** The splitting loop, at the start of a block followed by `y`, cuts that block and goes on just after it. */
  lemma {:induction false} ChunkCut(x: string, t: string, y: string)
    requires Block(t)
    ensures Chunks(x + t + y, |x|) == [t] + Chunks(x + t + y, |x + t|)
  {
    ChunkAt(x, t, y);
    ChunkStart(x + t + y, |x|, t);
  }

  /** The splitting loop of `loadBlueprints`, started just after `x`, cuts the text of well-formed objects into one block per object. */
  lemma {:induction false} ChunksOf(x: string, objects: seq<ObjectDef>)
    requires forall i :: 0 <= i < |objects| ==> WellFormed(objects[i])
    ensures Chunks(x + ObjectsText(objects), |x|) == Texts(objects)
  {
    TextsAreBlocks(objects);
    ChunksAt(x, Texts(objects));
  }

  /** The texts of the objects are theirs, one for one and in order. */
  lemma {:induction false} TextsAre(objects: seq<ObjectDef>)
    ensures |Texts(objects)| == |objects|
    ensures forall i :: 0 <= i < |objects| ==> Texts(objects)[i] == ObjectText(objects[i])
    decreases |objects|
  {
    if objects != [] {
      TextsAre(objects[1..]);
    }
  }

  /**
   * Loading the text of well-formed objects: the loader's precondition holds on it, and the
   * blueprints read back are the objects' meanings, one for one and in order.
   */
  lemma {:induction false} LoadObjects(objects: seq<ObjectDef>)
    requires forall i :: 0 <= i < |objects| ==> WellFormed(objects[i])
    ensures Parses(Chunks(ObjectsText(objects), 0))
    ensures |ParseAll(Chunks(ObjectsText(objects), 0))| == |objects|
    ensures forall i :: 0 <= i < |objects| ==> ParseAll(Chunks(ObjectsText(objects), 0))[i] == Meaning(objects[i])
  {
    var chunks := Chunks(ObjectsText(objects), 0);
    ChunksOf("", objects);
    assert "" + ObjectsText(objects) == ObjectsText(objects);
    TextsAre(objects);
    forall i | 0 <= i < |objects|
      ensures ParseBlueprint(chunks[i]) == Parsed(Meaning(objects[i]))
    {
      ObjectRoundTrip(objects[i]);
    }
    ParseAllParsed(chunks);
  }

  /**
   * After loading the text of well-formed objects, an object's name maps to its meaning unless
   * a later object has the same name.
   */
  lemma {:induction false} LoadedObject(table: map<string, Blueprint>, objects: seq<ObjectDef>, i: nat)
    requires forall k :: 0 <= k < |objects| ==> WellFormed(objects[k])
    requires i < |objects| && forall j :: i < j < |objects| ==> objects[j].name != objects[i].name
    ensures var m := StoreAll(table, ParseAll(Chunks(ObjectsText(objects), 0)));
      objects[i].name in m && m[objects[i].name] == Meaning(objects[i])
  {
    LoadObjects(objects);
    StoreAllLastWins(table, ParseAll(Chunks(ObjectsText(objects), 0)), i);
  }

  /** No tab or newline occurs in a well-formed object's text. */
  lemma {:induction false} ObjectChars(o: ObjectDef, c: char)
    requires WellFormed(o) && (c == '\t' || c == '\n')
    ensures c !in ObjectText(o)
  {
    var head, tags := ObjectHead(o.name), TagsText(o.tags);
    assert c !in head by {
      assert head == "<object Name=\"" + o.name + "\">";
    }
    TagsChars(o.tags, c);
    assert c !in ObjectEnd;
    assert ObjectText(o) == head + tags + ObjectEnd;
  }

  /** No tab or newline occurs in the text of well-formed objects. */
  lemma {:induction false} ObjectsChars(objects: seq<ObjectDef>, c: char)
    requires forall i :: 0 <= i < |objects| ==> WellFormed(objects[i])
    requires c == '\t' || c == '\n'
    ensures c !in ObjectsText(objects)
    decreases |objects|
  {
    if objects != [] {
      ObjectChars(objects[0], c);
      ObjectsChars(objects[1..], c);
      assert ObjectsText(objects) == ObjectText(objects[0]) + ObjectsText(objects[1..]);
    }
  }

  /**
   * A file whose one line is the text of well-formed objects: the line is kept, and erasing tabs
   * and newlines leaves it as it is.
   */
  lemma {:induction false} OneLine(objects: seq<ObjectDef>)
    requires forall i :: 0 <= i < |objects| ==> WellFormed(objects[i])
    ensures Flatten([ObjectsText(objects)]) == ObjectsText(objects)
  {
    var t := ObjectsText(objects);
    ObjectsChars(objects, '\t');
    ObjectsChars(objects, '\n');
    if objects != [] {
      assert t == ObjectText(objects[0]) + ObjectsText(objects[1..]);
      assert t[0] == ObjectHead(objects[0].name)[0] == '<';
    }
    assert [t][..0] == [];
    assert JoinKept([t]) == t;
  }
}
