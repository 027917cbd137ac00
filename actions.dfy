/** The server action that turns a prompt into a roadmap: it checks the
    prompt, asks the generator for a JSON text, parses it, and hydrates the
    loosely typed result into a step tree with fresh ids and default texts.
    Every failure after the prompt check becomes an error value. */
module Actions {
  import opened Wrappers
  import opened Steps

  // ---------------------------------------------------------------------
  // Parsed JSON values

  /** A value as the JSON parser produces it. An object keeps its members
      in text order; a key that occurs twice reads as its last occurrence. */
  datatype Json =
    | JNull
    | JBool(b: bool)
    | JNumber(n: real)
    | JString(s: string)
    | JArray(items: seq<Json>)
    | JObject(members: seq<Member>)

  datatype Member = Member(key: string, value: Json)

  /** The position of the last member named key, or -1 when there is none. */
  function LastIndexOf(members: seq<Member>, key: string): (k: int)
    ensures -1 <= k < |members|
    ensures k == -1 <==> forall j | 0 <= j < |members| :: members[j].key != key
    ensures k >= 0 ==> members[k].key == key && forall j | k < j < |members| :: members[j].key != key
  {
    if members == [] then -1
    else if members[|members| - 1].key == key then |members| - 1
    else LastIndexOf(members[..|members| - 1], key)
  }

  /** Reading a property of a parsed step: an object yields the value of its
      last member with that name; a missing member, and every property of a
      boolean, number, string or array, read as undefined (None). Reading
      from null is handled by the caller, because it throws. */
  function Property(v: Json, key: string): (r: Option<Json>)
    ensures r.Some? ==> r.value < v
    ensures r.Some? <==> v.JObject? && exists m | m in v.members :: m.key == key
    ensures r.Some? ==> Member(key, r.value) in v.members
    ensures r.Some? ==> v.JObject? && 0 <= LastIndexOf(v.members, key) &&
                        r.value == v.members[LastIndexOf(v.members, key)].value
  {
    match v
    case JObject(ms) =>
      var k := LastIndexOf(ms, key);
      if k >= 0 then Some(ms[k].value) else None
    case _ => None
  }

  /** JavaScript truthiness of a property value: undefined, null, false, 0
      and the empty string are falsy; arrays and objects, even empty, are
      truthy. */
  predicate Truthy(o: Option<Json>)
  {
    match o
    case None => false
    case Some(JNull) => false
    case Some(JBool(b)) => b
    case Some(JNumber(n)) => n != 0.0
    case Some(JString(t)) => t != ""
    case Some(JArray(_)) => true
    case Some(JObject(_)) => true
  }

  // ---------------------------------------------------------------------
  // Hydration

  const DefaultTitle := "Untitled Step"
  const DefaultDescription := "No description provided."
  const IdPrefix := "step_"

  /** The messages of the errors hydration throws: reading a property of a
      null element, and mapping over a truthy subSteps that is not an
      array. The third is the model's own: a text field that is truthy but
      not a string. */
  const NullStepMessage := "Cannot read properties of null (reading 'title')"
  const NotArrayMessage := "steps.map is not a function"
  const NonTextMessage := "A step's title or description is not a string."

  /** A hydrated value together with the position of the next unused id. */
  datatype Hydrated<T> = Hydrated(value: T, next: nat)

  /** A text field: a falsy value takes the default, a string is kept. */
  function TextField(o: Option<Json>, default: string): (r: Result<string, string>)
    ensures r.Ok? <==> !Truthy(o) || o.value.JString?
    ensures r.Ok? && Truthy(o) ==> r.value == o.value.s && r.value != ""
    ensures r.Ok? && !Truthy(o) ==> r.value == default
  {
    if !Truthy(o) then Ok(default)
    else match o.value
      case JString(t) => Ok(t)
      case _ => Err(NonTextMessage)
  }

  /** One element of a generated array becomes a step. Its id is
      "step_" followed by ids(next), the random part drawn for it; its
      children, when present, take the following ids, in pre-order. */
  function HydrateStep(v: Json, ids: nat -> string, next: nat): Result<Hydrated<Step>, string>
    decreases v, 2
  {
    if v.JNull? then Err(NullStepMessage)
    else
      var id := IdPrefix + ids(next);
      match TextField(Property(v, "title"), DefaultTitle)
      case Err(e) => Err(e)
      case Ok(title) =>
        match TextField(Property(v, "description"), DefaultDescription)
        case Err(e) => Err(e)
        case Ok(description) =>
          match HydrateChildren(v, ids, next + 1)
          case Err(e) => Err(e)
          case Ok(h) => Ok(Hydrated(Step(id, title, description, h.value), h.next))
  }

  /** The children of a generated element: none when its subSteps is falsy,
      the hydrated array when it is an array, and an error otherwise. */
  function HydrateChildren(v: Json, ids: nat -> string, next: nat): Result<Hydrated<seq<Step>>, string>
    decreases v, 1
  {
    var sub := Property(v, "subSteps");
    if !Truthy(sub) then Ok(Hydrated([], next))
    else match sub.value
      case JArray(items) => HydrateSteps(items, ids, next)
      case _ => Err(NotArrayMessage)
  }

  /** The elements of a generated array, hydrated left to right; the first
      error stops the walk. */
  function HydrateSteps(items: seq<Json>, ids: nat -> string, next: nat): Result<Hydrated<seq<Step>>, string>
    decreases items, 0
  {
    if items == [] then Ok(Hydrated([], next))
    else match HydrateStep(items[0], ids, next)
      case Err(e) => Err(e)
      case Ok(h) =>
        match HydrateSteps(items[1..], ids, h.next)
        case Err(e) => Err(e)
        case Ok(t) => Ok(Hydrated([h.value] + t.value, t.next))
  }

  // ---------------------------------------------------------------------
  // What hydration accepts and what it produces, stated independently

  /** A text field hydration accepts: falsy, or a string. */
  predicate TextAccepted(o: Option<Json>)
  {
    !Truthy(o) || o.value.JString?
  }

  /** The text a step receives from an accepted field: the string when it is
      truthy, the default otherwise. */
  function ExpectedText(o: Option<Json>, default: string): string
  {
    if Truthy(o) && o.value.JString? then o.value.s else default
  }

  /** A generated element hydration accepts: not null, its text fields
      accepted, and its subSteps falsy or an array of accepted elements. */
  predicate Hydratable(v: Json)
    decreases v, 1
  {
    && !v.JNull?
    && TextAccepted(Property(v, "title"))
    && TextAccepted(Property(v, "description"))
    && ChildrenHydratable(v)
  }

  /** The subSteps of v are falsy, or an array of hydratable elements. */
  predicate ChildrenHydratable(v: Json)
    decreases v, 0
  {
    var sub := Property(v, "subSteps");
    !Truthy(sub) || (sub.value.JArray? && AllHydratable(sub.value.items))
  }

  predicate AllHydratable(items: seq<Json>)
    decreases items, 0
  {
    forall k | 0 <= k < |items| :: Hydratable(items[k])
  }

  /** s is what v describes: the title and description v gives (or their
      defaults), and children that match v's subSteps element by element
      (none when subSteps is falsy). The id is not part of this relation. */
  predicate Describes(v: Json, s: Step)
    decreases v, 1
  {
    && Hydratable(v)
    && s.title == ExpectedText(Property(v, "title"), DefaultTitle)
    && s.description == ExpectedText(Property(v, "description"), DefaultDescription)
    && ChildrenDescribe(v, s.subSteps)
  }

  /** The children match v's subSteps element by element, or are none when
      v's subSteps is falsy. */
  predicate ChildrenDescribe(v: Json, kids: seq<Step>)
    decreases v, 0
  {
    var sub := Property(v, "subSteps");
    if Truthy(sub) then sub.value.JArray? && AllDescribe(sub.value.items, kids) else kids == []
  }

  /** The steps match the elements one to one, in order. */
  predicate AllDescribe(items: seq<Json>, steps: seq<Step>)
    decreases items, 0
  {
    |items| == |steps| && forall k | 0 <= k < |items| :: Describes(items[k], steps[k])
  }

  /** The ids xs are the prefixed draws ids(next), ids(next + 1), ... in order. */
  predicate DrawnFrom(xs: seq<string>, ids: nat -> string, next: nat)
  {
    forall j | 0 <= j < |xs| :: xs[j] == IdPrefix + ids(next + j)
  }

  lemma DrawnFromAppend(a: seq<string>, b: seq<string>, ids: nat -> string, next: nat)
    requires DrawnFrom(a, ids, next) && DrawnFrom(b, ids, next + |a|)
    ensures DrawnFrom(a + b, ids, next)
  {
    forall j | 0 <= j < |a + b|
      ensures (a + b)[j] == IdPrefix + ids(next + j)
    {
      if j >= |a| {
        assert (a + b)[j] == b[j - |a|];
        assert next + |a| + (j - |a|) == next + j;
      }
    }
  }

  /** Hydrating one element succeeds exactly when it is hydratable; the step
      it yields is the one the element describes, and its subtree's ids are
      the next Size draws, in pre-order. */
  lemma {:induction false} HydrateStepCorrect(v: Json, ids: nat -> string, next: nat)
    ensures HydrateStep(v, ids, next).Ok? <==> Hydratable(v)
    ensures HydrateStep(v, ids, next).Ok? ==>
              var h := HydrateStep(v, ids, next).value;
              Describes(v, h.value) && h.next == next + Size(h.value) &&
              DrawnFrom(Ids([h.value]), ids, next)
    decreases v, 2
  {
    if !v.JNull? {
      HydrateChildrenCorrect(v, ids, next + 1);
      HydrateStepAccepts(v, ids, next);
      if HydrateStep(v, ids, next).Ok? {
        HydrateStepDescribes(v, ids, next);
      }
    }
  }

  /** A non-null element hydrates exactly when its text fields are accepted
      and its children hydrate. */
  lemma HydrateStepAccepts(v: Json, ids: nat -> string, next: nat)
    requires !v.JNull? && (HydrateChildren(v, ids, next + 1).Ok? <==> ChildrenHydratable(v))
    ensures HydrateStep(v, ids, next).Ok? <==> Hydratable(v)
  {
    assert TextField(Property(v, "title"), DefaultTitle).Ok? == TextAccepted(Property(v, "title"));
    assert TextField(Property(v, "description"), DefaultDescription).Ok?
        == TextAccepted(Property(v, "description"));
  }

  /** A hydrated element yields the step it describes, with the first draw
      as its id and its children's draws after it. */
  lemma HydrateStepDescribes(v: Json, ids: nat -> string, next: nat)
    requires HydrateStep(v, ids, next).Ok?
    requires HydrateChildren(v, ids, next + 1).Ok? <==> ChildrenHydratable(v)
    requires HydrateChildren(v, ids, next + 1).Ok? ==>
               var h := HydrateChildren(v, ids, next + 1).value;
               ChildrenDescribe(v, h.value) && h.next == next + 1 + Count(h.value) &&
               DrawnFrom(Ids(h.value), ids, next + 1)
    ensures var h := HydrateStep(v, ids, next).value;
            Describes(v, h.value) && h.next == next + Size(h.value) &&
            DrawnFrom(Ids([h.value]), ids, next)
  {
    var title := TextField(Property(v, "title"), DefaultTitle);
    var description := TextField(Property(v, "description"), DefaultDescription);
    var kids := HydrateChildren(v, ids, next + 1);
    var s := Step(IdPrefix + ids(next), title.value, description.value, kids.value.value);
    assert HydrateStep(v, ids, next).value == Hydrated(s, kids.value.next);
    assert title.value == ExpectedText(Property(v, "title"), DefaultTitle);
    assert description.value == ExpectedText(Property(v, "description"), DefaultDescription);
    assert Hydratable(v) by { HydrateStepAccepts(v, ids, next); }
    assert Describes(v, s);
    assert Ids([s]) == [s.id] + Ids(s.subSteps) by { IdsOne(s); }
    DrawnFromAppend([s.id], Ids(s.subSteps), ids, next);
  }

  /** Hydrating the children succeeds exactly when they are hydratable, and
      gives the children v describes, with the next Count draws as ids. */
  lemma {:induction false} HydrateChildrenCorrect(v: Json, ids: nat -> string, next: nat)
    ensures HydrateChildren(v, ids, next).Ok? <==> ChildrenHydratable(v)
    ensures HydrateChildren(v, ids, next).Ok? ==>
              var h := HydrateChildren(v, ids, next).value;
              ChildrenDescribe(v, h.value) && h.next == next + Count(h.value) &&
              DrawnFrom(Ids(h.value), ids, next)
    decreases v, 1
  {
    var sub := Property(v, "subSteps");
    if Truthy(sub) && sub.value.JArray? {
      HydrateStepsCorrect(sub.value.items, ids, next);
    }
  }

  /** Hydrating an array succeeds exactly when every element is hydratable;
      the steps match the elements one to one, in order, and their ids are
      the next Count draws, in pre-order. */
  lemma {:induction false} HydrateStepsCorrect(items: seq<Json>, ids: nat -> string, next: nat)
    ensures HydrateSteps(items, ids, next).Ok? <==> AllHydratable(items)
    ensures HydrateSteps(items, ids, next).Ok? ==>
              var h := HydrateSteps(items, ids, next).value;
              AllDescribe(items, h.value) && h.next == next + Count(h.value) &&
              DrawnFrom(Ids(h.value), ids, next)
    decreases items, 0
  {
    if items != [] {
      HydrateStepCorrect(items[0], ids, next);
      if HydrateStep(items[0], ids, next).Ok? {
        var h := HydrateStep(items[0], ids, next).value;
        HydrateStepsCorrect(items[1..], ids, h.next);
        if HydrateSteps(items[1..], ids, h.next).Ok? {
          var t := HydrateSteps(items[1..], ids, h.next).value;
          var steps := [h.value] + t.value;
          assert steps[0] == h.value && steps[1..] == t.value;
          assert Ids(steps) == Ids([h.value]) + Ids(t.value) by {
            IdsOne(h.value);
          }
          DrawnFromAppend(Ids([h.value]), Ids(t.value), ids, next);
          assert AllDescribe(items, steps) by {
            forall k | 0 <= k < |items|
              ensures Describes(items[k], steps[k])
            {
              if k > 0 {
                assert items[k] == items[1..][k - 1];
              }
            }
          }
        } else {
          var k :| 0 <= k < |items[1..]| && !Hydratable(items[1..][k]);
          assert items[1..][k] == items[k + 1];
        }
      } else {
        assert !Hydratable(items[0]);
      }
    }
  }

  /** The message hydration stops with on v, or None when v is hydratable:
      the first defect met in pre-order. Reading a property of null comes
      first, then the title, the description, a subSteps that is truthy but
      not an array, and last the defects of the children, in order. */
  function Fault(v: Json): Option<string>
    decreases v, 2
  {
    if v.JNull? then Some(NullStepMessage)
    else if !TextAccepted(Property(v, "title")) || !TextAccepted(Property(v, "description"))
    then Some(NonTextMessage)
    else ChildrenFault(v)
  }

  function ChildrenFault(v: Json): Option<string>
    decreases v, 1
  {
    var sub := Property(v, "subSteps");
    if !Truthy(sub) then None
    else if !sub.value.JArray? then Some(NotArrayMessage)
    else ItemsFault(sub.value.items)
  }

  /** The defect of the first element that has one. */
  function ItemsFault(items: seq<Json>): Option<string>
    decreases items, 0
  {
    if items == [] then None
    else if Fault(items[0]).Some? then Fault(items[0]) else ItemsFault(items[1..])
  }

  /** The three messages hydration can fail with. */
  predicate HydrationMessage(m: string)
  {
    m == NullStepMessage || m == NotArrayMessage || m == NonTextMessage
  }

  /** An element has a defect exactly when it is not hydratable; the defect
      is one of the hydration messages, and hydrating the element fails with
      it, whatever the id draws. */
  lemma {:induction false} FaultCorrect(v: Json, ids: nat -> string, next: nat)
    ensures Fault(v).None? <==> Hydratable(v)
    ensures Fault(v).Some? ==> HydrationMessage(Fault(v).value)
    ensures HydrateStep(v, ids, next).Err? <==> Fault(v).Some?
    ensures HydrateStep(v, ids, next).Err? ==> HydrateStep(v, ids, next).error == Fault(v).value
    decreases v, 2
  {
    if !v.JNull? {
      ChildrenFaultCorrect(v, ids, next + 1);
    }
  }

  lemma {:induction false} ChildrenFaultCorrect(v: Json, ids: nat -> string, next: nat)
    ensures ChildrenFault(v).None? <==> ChildrenHydratable(v)
    ensures ChildrenFault(v).Some? ==> HydrationMessage(ChildrenFault(v).value)
    ensures HydrateChildren(v, ids, next).Err? <==> ChildrenFault(v).Some?
    ensures HydrateChildren(v, ids, next).Err? ==> HydrateChildren(v, ids, next).error == ChildrenFault(v).value
    decreases v, 1
  {
    var sub := Property(v, "subSteps");
    if Truthy(sub) && sub.value.JArray? {
      ItemsFaultCorrect(sub.value.items, ids, next);
    }
  }

  lemma {:induction false} ItemsFaultCorrect(items: seq<Json>, ids: nat -> string, next: nat)
    ensures ItemsFault(items).None? <==> AllHydratable(items)
    ensures ItemsFault(items).Some? ==> HydrationMessage(ItemsFault(items).value)
    ensures HydrateSteps(items, ids, next).Err? <==> ItemsFault(items).Some?
    ensures HydrateSteps(items, ids, next).Err? ==> HydrateSteps(items, ids, next).error == ItemsFault(items).value
    decreases items, 0
  {
    if items != [] {
      FaultCorrect(items[0], ids, next);
      if HydrateStep(items[0], ids, next).Ok? {
        var h := HydrateStep(items[0], ids, next).value;
        ItemsFaultCorrect(items[1..], ids, h.next);
        ItemsFaultCorrect(items[1..], ids, next);
        if AllHydratable(items[1..]) {
          forall k | 0 <= k < |items|
            ensures Hydratable(items[k])
          {
            if k > 0 {
              assert items[k] == items[1..][k - 1];
            }
          }
        } else {
          var k :| 0 <= k < |items[1..]| && !Hydratable(items[1..][k]);
          assert items[1..][k] == items[k + 1];
        }
      } else {
        assert !Hydratable(items[0]);
      }
    }
  }

  /** An element has a defect exactly when it is not hydratable. */
  lemma FaultNone(v: Json)
    ensures Fault(v).None? <==> Hydratable(v)
  {
    FaultCorrect(v, k => "", 0);
  }

  /** The defect hydration reports is that of the first element that is not
      hydratable: every element before it is hydratable. */
  lemma {:induction false} ItemsFaultFirst(items: seq<Json>)
    requires !AllHydratable(items)
    ensures exists k | 0 <= k < |items| ::
              AllHydratable(items[..k]) && !Hydratable(items[k]) && ItemsFault(items) == Fault(items[k])
    decreases items
  {
    if Hydratable(items[0]) {
      var rest := items[1..];
      assert !AllHydratable(rest) by {
        var j :| 0 <= j < |items| && !Hydratable(items[j]);
        assert j > 0 && rest[j - 1] == items[j];
      }
      ItemsFaultFirst(rest);
      var k :| 0 <= k < |rest| &&
               AllHydratable(rest[..k]) && !Hydratable(rest[k]) && ItemsFault(rest) == Fault(rest[k]);
      HydratableHead(items, k);
    } else {
      FaultNone(items[0]);
      assert ItemsFault(items) == Fault(items[0]);
      assert AllHydratable(items[..0]);
    }
  }

  /** Past a hydratable first element, the defect is that of the rest, and a
      hydratable prefix of the rest extends to one of the whole. */
  lemma HydratableHead(items: seq<Json>, k: nat)
    requires k + 1 < |items| && Hydratable(items[0])
    requires AllHydratable(items[1..][..k]) && !Hydratable(items[1..][k])
    requires ItemsFault(items[1..]) == Fault(items[1..][k])
    ensures AllHydratable(items[..k + 1]) && !Hydratable(items[k + 1]) && ItemsFault(items) == Fault(items[k + 1])
  {
    ItemsFaultSkip(items);
    assert items[k + 1] == items[1..][k];
    forall j | 0 < j < k + 1
      ensures Hydratable(items[j])
    {
      assert items[j] == items[1..][..k][j - 1];
    }
  }

  /** A hydratable first element contributes no defect. */
  lemma ItemsFaultSkip(items: seq<Json>)
    requires items != [] && Hydratable(items[0])
    ensures ItemsFault(items) == ItemsFault(items[1..])
  {
    FaultNone(items[0]);
  }

  /** A prefixed draw starts with the prefix, and the draw follows it. */
  lemma PrefixedDraw(draw: string)
    ensures |IdPrefix| <= |IdPrefix + draw|
    ensures (IdPrefix + draw)[..|IdPrefix|] == IdPrefix && (IdPrefix + draw)[|IdPrefix|..] == draw
  {
  }

  /** Every id hydration gives starts with "step_", and when the random
      draws never repeat, no two steps of the hydrated tree share an id. */
  lemma HydratedIdsFresh(items: seq<Json>, ids: nat -> string, next: nat)
    requires HydrateSteps(items, ids, next).Ok?
    ensures forall x | x in Ids(HydrateSteps(items, ids, next).value.value) ::
              |IdPrefix| <= |x| && x[..|IdPrefix|] == IdPrefix
    ensures (forall a: nat, b: nat :: ids(a) == ids(b) ==> a == b) ==>
              UniqueIds(HydrateSteps(items, ids, next).value.value)
  {
    var xs := Ids(HydrateSteps(items, ids, next).value.value);
    assert DrawnFrom(xs, ids, next) by {
      HydrateStepsCorrect(items, ids, next);
    }
    forall x | x in xs
      ensures |IdPrefix| <= |x| && x[..|IdPrefix|] == IdPrefix
    {
      var j :| 0 <= j < |xs| && xs[j] == x;
      PrefixedDraw(ids(next + j));
    }
    if forall a: nat, b: nat :: ids(a) == ids(b) ==> a == b {
      forall i, j | 0 <= i < j < |xs|
        ensures xs[i] != xs[j]
      {
        PrefixedDraw(ids(next + i));
        PrefixedDraw(ids(next + j));
      }
    }
  }

  // ---------------------------------------------------------------------
  // The prompt check

  /** The code points the string trim of JavaScript removes: the white
      space and line terminator characters, and the byte order mark. */
  const TrimmedCodes: set<int> :=
    {0x0009, 0x000A, 0x000B, 0x000C, 0x000D, 0x0020, 0x00A0, 0x1680,
     0x2000, 0x2001, 0x2002, 0x2003, 0x2004, 0x2005, 0x2006, 0x2007, 0x2008, 0x2009, 0x200A,
     0x2028, 0x2029, 0x202F, 0x205F, 0x3000, 0xFEFF}

  predicate IsTrimmed(c: char)
  {
    c as int in TrimmedCodes
  }

  /** The first position at or after i that does not hold white space
      (|s| when there is none). */
  function SkipBlanks(s: string, i: nat): (k: nat)
    requires i <= |s|
    ensures i <= k <= |s|
    ensures forall m | i <= m < k :: IsTrimmed(s[m])
    ensures k < |s| ==> !IsTrimmed(s[k])
    decreases |s| - i
  {
    if i < |s| && IsTrimmed(s[i]) then SkipBlanks(s, i + 1) else i
  }

  /** The end of s[lo..j] once its trailing white space is dropped. */
  function SkipBlanksBack(s: string, lo: nat, j: nat): (k: nat)
    requires lo <= j <= |s|
    ensures lo <= k <= j
    ensures forall m | k <= m < j :: IsTrimmed(s[m])
    ensures lo < k ==> !IsTrimmed(s[k - 1])
    decreases j
  {
    if lo < j && IsTrimmed(s[j - 1]) then SkipBlanksBack(s, lo, j - 1) else j
  }

  /** s without leading and trailing white space: a contiguous part of s,
      everything before and after it white space, and neither of its ends
      white space. */
  function Trim(s: string): (t: string)
    ensures var i := SkipBlanks(s, 0);
            i + |t| <= |s| && t == s[i..i + |t|] &&
            (forall k | 0 <= k < i :: IsTrimmed(s[k])) &&
            (forall k | i + |t| <= k < |s| :: IsTrimmed(s[k]))
    ensures t != [] ==> !IsTrimmed(t[0]) && !IsTrimmed(t[|t| - 1])
  {
    var i := SkipBlanks(s, 0);
    s[i..SkipBlanksBack(s, i, |s|)]
  }

  /** The length JavaScript reports for a string: its UTF-16 code units, two
      for a character beyond the basic multilingual plane. */
  function Utf16Length(s: string): (n: nat)
    ensures |s| <= n <= 2 * |s|
  {
    if s == [] then 0 else (if s[0] as int > 0xFFFF then 2 else 1) + Utf16Length(s[1..])
  }

  /** The action refuses a missing prompt and one whose trimmed length is
      under 10, before any generation. */
  predicate ShortPrompt(prompt: string)
  {
    prompt == "" || Utf16Length(Trim(prompt)) < 10
  }

  /** What the prompt check means in characters: under 5 characters after
      trimming is always refused, 10 or more never is; in between, it
      depends on how many characters need two code units. White space alone
      is always refused. */
  lemma ShortPromptByLength(prompt: string)
    ensures |Trim(prompt)| < 5 ==> ShortPrompt(prompt)
    ensures |Trim(prompt)| >= 10 ==> !ShortPrompt(prompt)
    ensures (forall k | 0 <= k < |prompt| :: IsTrimmed(prompt[k])) ==> ShortPrompt(prompt)
  {
    var t := Trim(prompt);
    if t != [] {
      assert t[0] == prompt[SkipBlanks(prompt, 0)];
    }
  }

  // ---------------------------------------------------------------------
  // The action

  /** What the generator hands back: it throws with a message, its output
      is null, or it gives an object whose roadmap text may be missing. */
  datatype Generation = Threw(message: string) | NoOutput | Returned(roadmap: Option<string>)

  /** What the action resolves to: a roadmap, or an error message. */
  datatype ActionResult = Generated(roadmap: seq<Step>) | Failed(error: string)

  const ShortPromptMessage := "Please provide a more detailed prompt (at least 10 characters)."
  const EmptyRoadmapMessage := "AI returned an empty roadmap."
  const NotArrayStructureMessage := "AI did not return a valid array structure."
  const NullOutputMessage := "Cannot read properties of null (reading 'roadmap')"
  const FailurePrefix :=
    "Failed to generate roadmap. The AI may have returned an invalid format or an error occurred. Details: "

  /** The guarded part of the action: what it produces, or the message of
      the first error thrown on the way. */
  function Attempt(prompt: string, generate: string -> Generation,
                   parse: string -> Result<Json, string>, ids: nat -> string): Result<seq<Step>, string>
  {
    match generate(prompt)
    case Threw(m) => Err(m)
    case NoOutput => Err(NullOutputMessage)
    case Returned(out) =>
      if out.None? || out.value == "" then Err(EmptyRoadmapMessage)
      else match parse(out.value)
        case Err(m) => Err(m)
        case Ok(json) =>
          if !json.JArray? then Err(NotArrayStructureMessage)
          else match HydrateSteps(json.items, ids, 0)
            case Err(m) => Err(m)
            case Ok(h) => Ok(h.value)
  }

  /** The action: a short prompt is refused with its own message; otherwise
      generation, parsing and hydration run, and any error they raise comes
      back as a value whose message carries the error's own message. */
  function GenerateRoadmapAction(prompt: string, generate: string -> Generation,
                                 parse: string -> Result<Json, string>, ids: nat -> string): (res: ActionResult)
    ensures ShortPrompt(prompt) ==> res == Failed(ShortPromptMessage)
    ensures !ShortPrompt(prompt) && res.Failed? ==>
              |FailurePrefix| <= |res.error| && res.error[..|FailurePrefix|] == FailurePrefix
  {
    if ShortPrompt(prompt) then Failed(ShortPromptMessage)
    else match Attempt(prompt, generate, parse, ids)
      case Ok(steps) => Generated(steps)
      case Err(m) => Failed(FailurePrefix + m)
  }

  /** A refused prompt never reaches the generator, the parser or the id
      source: any two choices of them give the same refusal. */
  lemma ShortPromptSkipsGeneration(prompt: string,
                                   generate1: string -> Generation, parse1: string -> Result<Json, string>, ids1: nat -> string,
                                   generate2: string -> Generation, parse2: string -> Result<Json, string>, ids2: nat -> string)
    requires ShortPrompt(prompt)
    ensures GenerateRoadmapAction(prompt, generate1, parse1, ids1)
         == GenerateRoadmapAction(prompt, generate2, parse2, ids2)
         == Failed(ShortPromptMessage)
  {
  }

  /** The action's outcomes. It succeeds exactly when the prompt is long
      enough, the generator returns a non-empty text, the text parses to an
      array and every element is hydratable; the roadmap then matches the
      array element by element, every id is a fresh "step_" draw taken in
      pre-order. Each failure carries the message of its cause after the
      common prefix. */
  lemma ActionOutcome(prompt: string, generate: string -> Generation,
                      parse: string -> Result<Json, string>, ids: nat -> string)
    ensures var res := GenerateRoadmapAction(prompt, generate, parse, ids);
            var g := generate(prompt);
            && (res.Generated? <==>
                  && !ShortPrompt(prompt)
                  && g.Returned? && g.roadmap.Some? && g.roadmap.value != ""
                  && parse(g.roadmap.value).Ok? && parse(g.roadmap.value).value.JArray?
                  && AllHydratable(parse(g.roadmap.value).value.items))
            && (res.Generated? ==>
                  AllDescribe(parse(g.roadmap.value).value.items, res.roadmap) &&
                  DrawnFrom(Ids(res.roadmap), ids, 0))
            && (!ShortPrompt(prompt) && g.Threw? ==> res == Failed(FailurePrefix + g.message))
            && (!ShortPrompt(prompt) && g.NoOutput? ==> res == Failed(FailurePrefix + NullOutputMessage))
            && (!ShortPrompt(prompt) && g.Returned? && (g.roadmap.None? || g.roadmap.value == "") ==>
                  res == Failed(FailurePrefix + EmptyRoadmapMessage))
            && (!ShortPrompt(prompt) && g.Returned? && g.roadmap.Some? && g.roadmap.value != "" ==>
                  (parse(g.roadmap.value).Err? ==>
                     res == Failed(FailurePrefix + parse(g.roadmap.value).error)) &&
                  (parse(g.roadmap.value).Ok? && !parse(g.roadmap.value).value.JArray? ==>
                     res == Failed(FailurePrefix + NotArrayStructureMessage)) &&
                  (parse(g.roadmap.value).Ok? && parse(g.roadmap.value).value.JArray? &&
                   !AllHydratable(parse(g.roadmap.value).value.items) ==>
                     ItemsFault(parse(g.roadmap.value).value.items).Some? &&
                     res == Failed(FailurePrefix + ItemsFault(parse(g.roadmap.value).value.items).value)))
  {
    var g := generate(prompt);
    if !ShortPrompt(prompt) && g.Returned? && g.roadmap.Some? && g.roadmap.value != "" {
      var p := parse(g.roadmap.value);
      if p.Ok? && p.value.JArray? {
        HydrateStepsCorrect(p.value.items, ids, 0);
        ItemsFaultCorrect(p.value.items, ids, 0);
      }
    }
  }

  // ---------------------------------------------------------------------
  // A worked example

  /** A generated element with the three fields the generator is asked for. */
  function ExampleStep(title: string, description: string, subSteps: seq<Json>): Json
  {
    JObject([Member("title", JString(title)), Member("description", JString(description)),
             Member("subSteps", JArray(subSteps))])
  }

  /** The two-phase roadmap the generator's instructions give as their example. */
  const ExampleText :=
    "[" + "{\"title\":\"Phase 1: Foundation\",\"description\":\"Lay the groundwork for the project.\","
    + "\"subSteps\":[{\"title\":\"Sub-step 1.1\",\"description\":\"Details for sub-step 1.1\",\"subSteps\":[]}]},"
    + "{\"title\":\"Phase 2: Development\",\"description\":\"Build the core features.\",\"subSteps\":[]}]"

  const ExampleJson :=
    JArray([ExampleStep("Phase 1: Foundation", "Lay the groundwork for the project.",
                        [ExampleStep("Sub-step 1.1", "Details for sub-step 1.1", [])]),
            ExampleStep("Phase 2: Development", "Build the core features.", [])])

  /** An element with the three fields reads them back. */
  lemma ExampleStepFields(title: string, description: string, subSteps: seq<Json>)
    ensures Property(ExampleStep(title, description, subSteps), "title") == Some(JString(title))
    ensures Property(ExampleStep(title, description, subSteps), "description") == Some(JString(description))
    ensures Property(ExampleStep(title, description, subSteps), "subSteps") == Some(JArray(subSteps))
  {
    var ms := ExampleStep(title, description, subSteps).members;
    var two := [Member("title", JString(title)), Member("description", JString(description))];
    assert ms[..2] == two;
    assert two[..1] == [Member("title", JString(title))];
    assert [Member("title", JString(title))][..0] == [];
    assert LastIndexOf([Member("title", JString(title))], "title") == 0;
    assert LastIndexOf(two, "title") == 0;
    assert LastIndexOf(ms, "title") == 0;
    assert LastIndexOf(two, "description") == 1;
    assert LastIndexOf(ms, "description") == 1;
  }

  /** An element with a non-empty title and description and hydratable
      children becomes a step with those texts, its id drawn first. */
  lemma ExampleStepHydrates(title: string, description: string, subSteps: seq<Json>,
                            ids: nat -> string, next: nat)
    requires title != "" && description != ""
    requires HydrateSteps(subSteps, ids, next + 1).Ok?
    ensures var h := HydrateSteps(subSteps, ids, next + 1).value;
            HydrateStep(ExampleStep(title, description, subSteps), ids, next)
              == Ok(Hydrated(Step(IdPrefix + ids(next), title, description, h.value), h.next))
  {
    ExampleStepFields(title, description, subSteps);
  }

  /** A prompt asking for a roadmap, of 45 characters. */
  const ExamplePrompt := "Learn full-" + "stack web " + "development " + "from scratch"

  /** The example prompt is long enough. */
  lemma ExamplePromptAccepted()
    ensures !ShortPrompt(ExamplePrompt)
  {
    ExamplePromptTrimmed();
    assert |ExamplePrompt| == 45;
  }

  /** Trimming leaves the example prompt whole. */
  lemma ExamplePromptTrimmed()
    ensures Trim(ExamplePrompt) == ExamplePrompt
  {
    ExamplePromptEnds();
    assert SkipBlanks(ExamplePrompt, 0) == 0;
    assert SkipBlanksBack(ExamplePrompt, 0, 45) == 45;
    assert ExamplePrompt[0..45] == ExamplePrompt;
  }

  /** The example prompt's length and its first and last characters. */
  lemma ExamplePromptEnds()
    ensures |ExamplePrompt| == 45 && ExamplePrompt[0] == 'L' && ExamplePrompt[44] == 'h'
  {
    assert ExamplePrompt[0] == "Learn full-"[0];
    assert ExamplePrompt[44] == "from scratch"[11];
  }

  /** The roadmap the example text describes, with ids drawn in pre-order:
      the first phase, its sub-step, then the second phase. */
  function ExampleRoadmap(ids: nat -> string): seq<Step>
  {
    [Step(IdPrefix + ids(0), "Phase 1: Foundation", "Lay the groundwork for the project.",
          [Step(IdPrefix + ids(1), "Sub-step 1.1", "Details for sub-step 1.1", [])]),
     Step(IdPrefix + ids(2), "Phase 2: Development", "Build the core features.", [])]
  }

  /** Hydrating an element followed by more elements: the element's step,
      then the rest's steps, which take the ids after the element's. */
  lemma HydrateStepsCons(v: Json, rest: seq<Json>, ids: nat -> string, next: nat)
    requires HydrateStep(v, ids, next).Ok?
    requires HydrateSteps(rest, ids, HydrateStep(v, ids, next).value.next).Ok?
    ensures var h := HydrateStep(v, ids, next).value;
            var t := HydrateSteps(rest, ids, h.next).value;
            HydrateSteps([v] + rest, ids, next) == Ok(Hydrated([h.value] + t.value, t.next))
  {
    assert ([v] + rest)[0] == v && ([v] + rest)[1..] == rest;
  }

  /** A one-element array holding an element with texts and no children
      hydrates to one leaf that takes the next id. */
  lemma LeafHydrates(title: string, description: string, ids: nat -> string, next: nat)
    requires title != "" && description != ""
    ensures HydrateSteps([ExampleStep(title, description, [])], ids, next)
         == Ok(Hydrated([Step(IdPrefix + ids(next), title, description, [])], next + 1))
  {
    var v := ExampleStep(title, description, []);
    var st := Step(IdPrefix + ids(next), title, description, []);
    assert HydrateSteps([], ids, next + 1) == Ok(Hydrated([], next + 1));
    ExampleStepHydrates(title, description, [], ids, next);
    assert HydrateStep(v, ids, next) == Ok(Hydrated(st, next + 1));
    HydrateStepsCons(v, [], ids, next);
    assert [v] + [] == [v] && [st] + [] == [st];
  }

  /** An element with texts and one childless sub-element hydrates to a step
      that takes the next id and gives the one after to its sub-step. */
  lemma ParentHydrates(title: string, description: string,
                       subTitle: string, subDescription: string, ids: nat -> string, next: nat)
    requires title != "" && description != "" && subTitle != "" && subDescription != ""
    ensures HydrateStep(ExampleStep(title, description, [ExampleStep(subTitle, subDescription, [])]), ids, next)
         == Ok(Hydrated(Step(IdPrefix + ids(next), title, description,
                             [Step(IdPrefix + ids(next + 1), subTitle, subDescription, [])]), next + 2))
  {
    var sub := ExampleStep(subTitle, subDescription, []);
    LeafHydrates(subTitle, subDescription, ids, next + 1);
    ExampleStepHydrates(title, description, [sub], ids, next);
  }

  /** An array of a parent with one childless sub-element followed by a
      childless element hydrates in pre-order: the parent takes the next id,
      its sub-step the one after, the last element the third. */
  lemma TwoPhasesHydrate(title: string, description: string, subTitle: string, subDescription: string,
                         lastTitle: string, lastDescription: string, ids: nat -> string, next: nat)
    requires title != "" && description != "" && subTitle != "" && subDescription != ""
    requires lastTitle != "" && lastDescription != ""
    ensures HydrateSteps([ExampleStep(title, description, [ExampleStep(subTitle, subDescription, [])]),
                          ExampleStep(lastTitle, lastDescription, [])], ids, next)
         == Ok(Hydrated([Step(IdPrefix + ids(next), title, description,
                              [Step(IdPrefix + ids(next + 1), subTitle, subDescription, [])]),
                         Step(IdPrefix + ids(next + 2), lastTitle, lastDescription, [])], next + 3))
  {
    var one := ExampleStep(title, description, [ExampleStep(subTitle, subDescription, [])]);
    var first := Step(IdPrefix + ids(next), title, description, [Step(IdPrefix + ids(next + 1), subTitle, subDescription, [])]);
    assert HydrateStep(one, ids, next) == Ok(Hydrated(first, next + 2)) by {
      ParentHydrates(title, description, subTitle, subDescription, ids, next);
    }
    LeafHydrates(lastTitle, lastDescription, ids, next + 2);
    HydratePair(one, ExampleStep(lastTitle, lastDescription, []), ids, next,
                first, Step(IdPrefix + ids(next + 2), lastTitle, lastDescription, []), next + 2, next + 3);
  }

  /** Two elements hydrate to the first's step then the second's, the second
      drawing its ids after the first's. */
  lemma HydratePair(one: Json, two: Json, ids: nat -> string, next: nat,
                    first: Step, last: Step, mid: nat, end: nat)
    requires HydrateStep(one, ids, next) == Ok(Hydrated(first, mid))
    requires HydrateSteps([two], ids, mid) == Ok(Hydrated([last], end))
    ensures HydrateSteps([one, two], ids, next) == Ok(Hydrated([first, last], end))
  {
    HydrateStepsCons(one, [two], ids, next);
    assert [one] + [two] == [one, two] && [first] + [last] == [first, last];
  }

  /** Hydrating the example array gives the example roadmap and uses three ids. */
  lemma ExampleHydrates(ids: nat -> string)
    ensures HydrateSteps(ExampleJson.items, ids, 0) == Ok(Hydrated(ExampleRoadmap(ids), 3))
  {
    TwoPhasesHydrate("Phase 1: Foundation", "Lay the groundwork for the project.",
                     "Sub-step 1.1", "Details for sub-step 1.1",
                     "Phase 2: Development", "Build the core features.", ids, 0);
  }

  /** A generator that answers every prompt with the example text. */
  function ExampleGenerator(prompt: string): Generation
  {
    Returned(Some(ExampleText))
  }

  /** A parser that knows the example text and rejects everything else. */
  function ExampleParser(text: string): Result<Json, string>
  {
    if text == ExampleText then Ok(ExampleJson) else Err("Unexpected token")
  }

  /** The example text is not empty: it opens with a bracket. */
  lemma ExampleTextNonEmpty()
    ensures ExampleText != "" && ExampleText[0] == '['
  {
    assert ExampleText[0] == "["[0];
  }

  /** When the generator returns text that parses to an array whose elements
      all hydrate, the attempt yields the hydrated steps. */
  lemma AttemptSucceeds(prompt: string, generate: string -> Generation,
                        parse: string -> Result<Json, string>, ids: nat -> string,
                        text: string, items: seq<Json>, steps: seq<Step>, next: nat)
    requires generate(prompt) == Returned(Some(text)) && text != ""
    requires parse(text) == Ok(JArray(items))
    requires HydrateSteps(items, ids, 0) == Ok(Hydrated(steps, next))
    ensures Attempt(prompt, generate, parse, ids) == Ok(steps)
  {
  }

  /** Past the prompt check, the example generator's text parses to the
      sample array, which hydrates to the example roadmap. */
  lemma ExampleAttempt(ids: nat -> string)
    ensures Attempt(ExamplePrompt, ExampleGenerator, ExampleParser, ids) == Ok(ExampleRoadmap(ids))
  {
    ExampleHydrates(ids);
    ExampleTextNonEmpty();
    AttemptSucceeds(ExamplePrompt, ExampleGenerator, ExampleParser, ids,
                    ExampleText, ExampleJson.items, ExampleRoadmap(ids), 3);
  }

  /** With the example prompt, the example generator and parser, the action
      yields the example roadmap: the two phases in order, the first with
      its one sub-step. */
  lemma ExampleGeneration(ids: nat -> string)
    ensures GenerateRoadmapAction(ExamplePrompt, ExampleGenerator, ExampleParser, ids)
         == Generated(ExampleRoadmap(ids))
  {
    ExamplePromptAccepted();
    ExampleAttempt(ids);
  }
}
