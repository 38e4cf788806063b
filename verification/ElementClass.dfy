/** Which class of the permitted ones an element counts as, and what a container may hold. */
module ElementClass {
  import opened Collections

  /** A class in a tree with single inheritance: a base class, or a subclass of its one parent. */
  datatype Class = Base(name: string) | Sub(name: string, parent: Class)

  predicate IsSubclass(c: Class, d: Class) { c == d || (c.Sub? && IsSubclass(c.parent, d)) }

  /** `(min_occurrence, max_occurrence)`. */
  datatype Limit = Limit(least: int, most: int)

  /** A `_may_contain` table: what is permitted, and how often. */
  type Table = map<Class, Limit>

  const INFINITE := 0x7fff_ffff

  // ---- The most specific permitted class ---------------------------------------------------------

  /** The first permitted class on the way from `c` to the root of its tree. */
  function NearestPermitted(permitted: set<Class>, c: Class): (r: Maybe<Class>)
    ensures r.Some? ==> r.value in permitted
  {
    if c in permitted then Some(c) else if c.Base? then None else NearestPermitted(permitted, c.parent)
  }

  /** `best` is permitted, an ancestor of `c`, and a subclass of every other such class. */
  ghost predicate MostSpecific(permitted: set<Class>, c: Class, best: Class) {
    best in permitted && IsSubclass(c, best) && forall d <- permitted :: IsSubclass(c, d) ==> IsSubclass(best, d)
  }

  lemma {:induction false} NearestIsMostSpecific(permitted: set<Class>, c: Class)
    ensures match NearestPermitted(permitted, c)
            case Some(best) => MostSpecific(permitted, c, best)
            case None => forall d <- permitted :: !IsSubclass(c, d)
  {
    if c !in permitted && c.Sub? {
      NearestIsMostSpecific(permitted, c.parent);
    }
  }

  lemma {:induction false} SubclassTransitive(a: Class, b: Class, c: Class)
    requires IsSubclass(a, b) && IsSubclass(b, c)
    ensures IsSubclass(a, c)
  {
    if a != b {
      SubclassTransitive(a.parent, b, c);
    }
  }

  /** With single inheritance the ancestors of a class form a line. */
  lemma {:induction false} AncestorsAreALine(c: Class, d: Class, e: Class)
    requires IsSubclass(c, d) && IsSubclass(c, e)
    ensures IsSubclass(d, e) || IsSubclass(e, d)
  {
    if c != d && c != e {
      AncestorsAreALine(c.parent, d, e);
    }
  }

  lemma {:induction false} SubclassIsNotHigher(c: Class, d: Class)
    requires IsSubclass(c, d)
    ensures c == d || (c decreases to d)
  {
    if c != d {
      SubclassIsNotHigher(c.parent, d);
    }
  }

  lemma SubclassAntisymmetric(c: Class, d: Class)
    requires IsSubclass(c, d) && IsSubclass(d, c)
    ensures c == d
  {
    SubclassIsNotHigher(c, d);
    SubclassIsNotHigher(d, c);
  }

  /** The most specific permitted class is unique, so it is the nearest one. */
  lemma MostSpecificIsNearest(permitted: set<Class>, c: Class, best: Class)
    requires MostSpecific(permitted, c, best)
    ensures NearestPermitted(permitted, c) == Some(best)
  {
    hide NearestPermitted;
    NearestIsMostSpecific(permitted, c);
    var near := NearestPermitted(permitted, c).value;
    SubclassAntisymmetric(near, best);
  }

  function PermittedClass(table: Table, element: Class): Maybe<Class> {
    match NearestPermitted(table.Keys, element)
    case None => None
    case Some(c) => if table[c].most < 1 then None else Some(c)
  }

  /** The elements of the sequence `order`. */
  function Visited(order: seq<Class>, n: nat): set<Class>
    requires n <= |order|
  {
    set i | 0 <= i < n :: order[i]
  }

  /**
   `get_element_class` on an element of class `element`. Whatever the order in which the table
   lists its classes, the loop ends with the most specific permitted ancestor.
   */
  method GetElementClass(table: Table, order: seq<Class>, element: Class) returns (found: Maybe<Class>)
    requires Visited(order, |order|) == table.Keys
    ensures found == PermittedClass(table, element)
  {
    hide NearestPermitted, IsSubclass;
    found := None;
    for i := 0 to |order|
      invariant match found
                case Some(best) => MostSpecific(Visited(order, i), element, best)
                case None => forall d <- Visited(order, i) :: !IsSubclass(element, d)
    {
      var klass := order[i];
      assert Visited(order, i + 1) == Visited(order, i) + {klass};
      if IsSubclass(element, klass) {
        if found.Some? {
          AncestorsAreALine(element, found.value, klass);
        }
        if found.Some? && IsSubclass(found.value, klass) {
          continue;
        }
        if found.Some? {
          MoreSpecific(Visited(order, i), element, found.value, klass);
        } else {
          SubclassOfItself(klass);
        }
        found := Some(klass);
      }
    }
    if found.Some? {
      MostSpecificIsNearest(table.Keys, element, found.value);
      if table[found.value].most < 1 {
        found := None;
      }
    } else {
      NearestIsMostSpecific(table.Keys, element);
    }
  }

  lemma SubclassOfItself(c: Class)
    ensures IsSubclass(c, c)
  {
  }

  lemma MoreSpecific(visited: set<Class>, element: Class, best: Class, klass: Class)
    requires MostSpecific(visited, element, best) && IsSubclass(klass, best) && IsSubclass(element, klass)
    ensures MostSpecific(visited + {klass}, element, klass)
  {
    hide IsSubclass;
    SubclassOfItself(klass);
    forall d | d in visited + {klass} && IsSubclass(element, d) ensures IsSubclass(klass, d) {
      if d in visited {
        SubclassTransitive(klass, best, d);
      }
    }
  }

  // ---- What a container accepts --------------------------------------------------------------------

  /** How many of the elements count as `c`. */
  function Occurrences(table: Table, elements: seq<Class>, c: Class): nat {
    if elements == [] then 0
    else
      var n := |elements| - 1;
      Occurrences(table, elements[..n], c) + if PermittedClass(table, elements[n]) == Some(c) then 1 else 0
  }

  ghost predicate Contains(table: Table, elements: seq<Class>) {
    && (forall e <- elements :: PermittedClass(table, e).Some?)
    && forall c <- table :: table[c].least <= Occurrences(table, elements, c) <= table[c].most
  }

  /** `validate_contains` raises `ValueError` for exactly the lists that break a limit or hold a stranger. */
  method ValidateContains(table: Table, order: seq<Class>, elements: seq<Class>) returns (accepted: bool)
    requires Visited(order, |order|) == table.Keys
    ensures accepted <==> Contains(table, elements)
  {
    hide PermittedClass;
    var occurrences: map<Class, nat> := map c | c in table :: 0;
    for i := 0 to |elements|
      invariant occurrences.Keys == table.Keys
      invariant forall e <- elements[..i] :: PermittedClass(table, e).Some?
      invariant forall c <- table :: occurrences[c] == Occurrences(table, elements[..i], c)
    {
      var elementClass := GetElementClass(table, order, elements[i]);
      if elementClass.None? {
        assert elements[i] in elements;
        return false;
      }
      PermittedIsListed(table, elements[i]);
      assert elements[..i + 1][..i] == elements[..i];
      occurrences := occurrences[elementClass.value := occurrences[elementClass.value] + 1];
    }
    assert elements[..|elements|] == elements;
    for i := 0 to |order|
      invariant forall c <- Visited(order, i) ::
          c in table && table[c].least <= Occurrences(table, elements, c) <= table[c].most
    {
      assert order[i] in Visited(order, |order|);
      var count, limit := occurrences[order[i]], table[order[i]];
      if count > limit.most {
        return false;
      } else if count < limit.least {
        return false;
      }
    }
    return true;
  }

  lemma PermittedIsListed(table: Table, element: Class)
    ensures PermittedClass(table, element).Some? ==> PermittedClass(table, element).value in table
  {
  }

  // ---- Tables of subclasses ---------------------------------------------------------------------------

  /** The `ChainMap` of a class: its own entries in front of those of its parent. */
  function TableOf(own: map<Class, Table>, c: Class): Table {
    var mine := if c in own then own[c] else map[];
    match c
    case Base(_) => mine
    case Sub(_, parent) => TableOf(own, parent) + mine
  }

  /** The entry that counts is the one of the nearest class that has one. */
  lemma {:induction false} NearestEntryCounts(own: map<Class, Table>, c: Class, k: Class)
    ensures k in TableOf(own, c) <==> exists d :: IsSubclass(c, d) && d in own && k in own[d]
    ensures c in own && k in own[c] ==> TableOf(own, c)[k] == own[c][k]
    ensures c.Sub? && !(c in own && k in own[c]) && k in TableOf(own, c) ==>
              k in TableOf(own, c.parent) && TableOf(own, c)[k] == TableOf(own, c.parent)[k]
  {
    if c.Sub? {
      NearestEntryCounts(own, c.parent, k);
      if c in own && k in own[c] {
        assert IsSubclass(c, c);
      }
    } else if k in TableOf(own, c) {
      assert IsSubclass(c, c);
    }
  }

  // ---- What a relay-forward message may contain --------------------------------------------------------

  const OPTION := Sub("Option", Base("ProtocolElement"))
  const MESSAGE := Sub("Message", Base("ProtocolElement"))
  const RELAY_SERVER := Sub("RelayServerMessage", MESSAGE)
  const RELAY_FORWARD := Sub("RelayForwardMessage", RELAY_SERVER)

  function OptionClass(name: string): Class { Sub(name, OPTION) }

  /** The entries that the modules of the repository add to these message classes. */
  const OWN: map<Class, Table> :=
    map[MESSAGE := map[OptionClass("UnknownOption") := Limit(0, INFINITE),
                       OptionClass("AuthenticationOption") := Limit(0, 1)],
        RELAY_SERVER := map[OptionClass("LinkLayerIdOption") := Limit(0, 1)],
        RELAY_FORWARD := map[OptionClass("RelayMessageOption") := Limit(0, 1),
                             OptionClass("InterfaceIdOption") := Limit(0, 1),
                             OptionClass("RemoteIdOption") := Limit(0, INFINITE),
                             OptionClass("SubscriberIdOption") := Limit(0, INFINITE)]]

  /**
   No relay-forward message with an echo-request or a relay-id option passes validation, so the
   handlers that look for those options never see one that came over the network.
   */
  lemma EchoRequestAndRelayIdAreRefused(elements: seq<Class>)
    requires OptionClass("EchoRequestOption") in elements || OptionClass("RelayIdOption") in elements
    ensures !Contains(TableOf(OWN, RELAY_FORWARD), elements)
  {
    OwnEntriesAreNamed();
    OtherNames("EchoRequestOption");
    OtherNames("RelayIdOption");
    Stranger(OWN, RELAY_FORWARD, "EchoRequestOption");
    Stranger(OWN, RELAY_FORWARD, "RelayIdOption");
  }

  const PERMITTED_NAMES :=
    {"UnknownOption", "AuthenticationOption", "LinkLayerIdOption", "RelayMessageOption", "InterfaceIdOption",
     "RemoteIdOption", "SubscriberIdOption"}

  /** All entries are option classes with one of these names. */
  ghost predicate Named(own: map<Class, Table>) {
    forall d, k | d in own && k in own[d] :: k.Sub? && k.parent == OPTION && k.name in PERMITTED_NAMES
  }

  lemma OwnEntriesAreNamed()
    ensures Named(OWN)
  {
  }

  lemma Stranger(own: map<Class, Table>, c: Class, name: string)
    requires Named(own) && name !in PERMITTED_NAMES
    ensures PermittedClass(TableOf(own, c), OptionClass(name)) == None
  {
    NearestEntryCounts(own, c, OptionClass(name));
    NearestEntryCounts(own, c, OPTION);
    NearestEntryCounts(own, c, OPTION.parent);
    var table := TableOf(own, c);
    assert OptionClass(name) !in table && OPTION !in table && OPTION.parent !in table;
    assert NearestPermitted(table.Keys, OPTION.parent) == None;
    assert NearestPermitted(table.Keys, OPTION) == None;
  }

  lemma OtherNames(name: string)
    requires name == "EchoRequestOption" || name == "RelayIdOption"
    ensures name !in PERMITTED_NAMES
  {
    assert name[0] == 'E' || (name[0] == 'R' && name[2] == 'l' && |name| == 13);
    assert "RelayMessageOption"[5] == 'M';
    assert "RemoteIdOption"[2] == 'm';
  }
}
