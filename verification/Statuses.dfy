/** `force_status`: replace the status options of a list while walking over that same list. */
module Statuses {
  import opened Bytes
  import opened Wire

  const STATUS_SUCCESS: u16 := 0
  const STATUS_NO_ADDRS_AVAIL: u16 := 2
  const STATUS_NO_BINDING: u16 := 3
  const STATUS_NOT_ON_LINK: u16 := 4
  const STATUS_NO_PREFIX_AVAIL: u16 := 6

  /** A message text as octets; status texts are ASCII. */
  function Ascii(s: string): bytes {
    seq(|s|, i requires 0 <= i < |s| => (s[i] as int % 256) as byte)
  }

  function Status(code: u16, text: string): Option { Leaf(StatusCode(code, Ascii(text))) }

  predicate IsStatus(o: Option) { o.Leaf? && o.leaf.StatusCode? }

  predicate IsStatusOf(o: Option, code: u16) { IsStatus(o) && o.leaf.status == code }

  function StatusesOf(options: seq<Option>): seq<Option> {
    if options == [] then [] else (if IsStatus(options[0]) then [options[0]] else []) + StatusesOf(options[1..])
  }

  lemma {:induction false} StatusesConcat(a: seq<Option>, b: seq<Option>)
    ensures StatusesOf(a + b) == StatusesOf(a) + StatusesOf(b)
  {
    if a == [] {
      assert a + b == b;
    } else {
      StatusesConcat(a[1..], b);
      assert (a + b)[1..] == a[1..] + b && (a + b)[0] == a[0];
      var head := if IsStatus(a[0]) then [a[0]] else [];
      assert head + (StatusesOf(a[1..]) + StatusesOf(b)) == (head + StatusesOf(a[1..])) + StatusesOf(b);
    }
  }

  /** `list.remove`: drop the first element equal to `o`. */
  function Remove(options: seq<Option>, o: Option): (r: seq<Option>)
    requires o in options
    ensures |r| == |options| - 1
  {
    if options[0] == o then options[1..] else [options[0]] + Remove(options[1..], o)
  }

  /** The walk from position `i` on: an element behind a removed one is never looked at. */
  function ForceFrom(options: seq<Option>, i: nat, status: Option): seq<Option>
    requires IsStatus(status)
    decreases |options| - i
  {
    if i >= |options| then options + [status]
    else if !IsStatus(options[i]) then ForceFrom(options, i + 1, status)
    else if options[i].leaf.status == status.leaf.status then options
    else ForceFrom(Remove(options, options[i]), i + 1, status)
  }

  method ForceStatus(options: seq<Option>, status: Option) returns (r: seq<Option>)
    requires IsStatus(status)
    ensures r == ForceFrom(options, 0, status)
  {
    r := options;
    var i := 0;
    while i < |r|
      invariant ForceFrom(options, 0, status) == ForceFrom(r, i, status)
      decreases |r| - i
    {
      if IsStatus(r[i]) {
        if r[i].leaf.status == status.leaf.status {
          return;
        }
        r := Remove(r, r[i]);
      }
      i := i + 1;
    }
    r := r + [status];
  }

  /** No status option stands directly behind another, and one with the wanted code is the last. */
  predicate Separated(options: seq<Option>, code: u16) {
    forall i, j | 0 <= i < j < |options| && IsStatus(options[i]) && IsStatus(options[j]) ::
      i + 1 < j && options[i].leaf.status != code
  }

  /** How many status options the walk over `rest` leaves when the whole list has `n`. */
  function Leftover(n: int, rest: seq<Option>, code: u16): int
    decreases |rest|
  {
    if rest == [] then n + 1
    else if !IsStatus(rest[0]) then Leftover(n, rest[1..], code)
    else if rest[0].leaf.status == code then n
    else Leftover(n - 1, if |rest| == 1 then [] else rest[2..], code)
  }

  lemma {:induction false} RemoveSplits(options: seq<Option>, o: Option, i: nat)
    requires i < |options| && options[i] == o
    ensures i < |Remove(options, o)| ==> Remove(options, o)[i + 1..] == options[i + 2..]
    ensures |StatusesOf(Remove(options, o))| == |StatusesOf(options)| - if IsStatus(o) then 1 else 0
  {
    if options[0] == o {
    } else {
      RemoveSplits(options[1..], o, i - 1);
      assert Remove(options, o)[1..] == Remove(options[1..], o);
      if i < |Remove(options, o)| {
        assert Remove(options, o)[i + 1..] == Remove(options[1..], o)[i..];
      }
    }
  }

  lemma {:induction false} ForceCount(options: seq<Option>, i: nat, status: Option)
    requires IsStatus(status) && i <= |options|
    ensures |StatusesOf(ForceFrom(options, i, status))|
        == Leftover(|StatusesOf(options)|, options[i..], status.leaf.status)
    decreases |options| - i
  {
    if i == |options| {
      StatusesConcat(options, [status]);
      assert [status][1..] == [];
    } else if !IsStatus(options[i]) {
      ForceCount(options, i + 1, status);
    } else if options[i].leaf.status != status.leaf.status {
      RemoveSplits(options, options[i], i);
      var shorter := Remove(options, options[i]);
      if i < |shorter| {
        ForceCount(shorter, i + 1, status);
        assert options[i..][2..] == options[i + 2..];
      } else {
        StatusesConcat(shorter, [status]);
        assert [status][1..] == [];
      }
    }
  }

  lemma SeparatedTail(options: seq<Option>, code: u16)
    requires options != []
    ensures !IsStatus(options[0]) ==> (Separated(options, code) <==> Separated(options[1..], code))
    ensures IsStatusOf(options[0], code) ==> (Separated(options, code) <==> StatusesOf(options[1..]) == [])
    ensures IsStatus(options[0]) && !IsStatusOf(options[0], code) && |options| > 1 ==>
              (Separated(options, code) <==> !IsStatus(options[1]) && Separated(options[2..], code))
  {
    NoStatus(options[1..]);
    if Separated(options, code) {
      forall i, j | 0 <= i < j < |options[1..]| && IsStatus(options[1..][i]) && IsStatus(options[1..][j])
        ensures i + 1 < j && options[1..][i].leaf.status != code
      {
        assert IsStatus(options[i + 1]) && IsStatus(options[j + 1]);
      }
      if |options| > 1 {
        forall i, j | 0 <= i < j < |options[2..]| && IsStatus(options[2..][i]) && IsStatus(options[2..][j])
          ensures i + 1 < j && options[2..][i].leaf.status != code
        {
          assert IsStatus(options[i + 2]) && IsStatus(options[j + 2]);
        }
      }
    }
    if Separated(options[1..], code) && !IsStatus(options[0]) {
      forall i, j | 0 <= i < j < |options| && IsStatus(options[i]) && IsStatus(options[j])
        ensures i + 1 < j && options[i].leaf.status != code
      {
        assert IsStatus(options[1..][i - 1]) && IsStatus(options[1..][j - 1]);
      }
    }
    if |options| > 1 && !IsStatus(options[1]) && Separated(options[2..], code) && IsStatus(options[0])
        && !IsStatusOf(options[0], code) {
      forall i, j | 0 <= i < j < |options| && IsStatus(options[i]) && IsStatus(options[j])
        ensures i + 1 < j && options[i].leaf.status != code
      {
        if i > 0 {
          assert IsStatus(options[2..][i - 2]) && IsStatus(options[2..][j - 2]);
        }
      }
    }
  }

  lemma {:induction false} NoStatus(options: seq<Option>)
    ensures StatusesOf(options) == [] <==> forall i | 0 <= i < |options| :: !IsStatus(options[i])
  {
    if options != [] {
      NoStatus(options[1..]);
      if StatusesOf(options) == [] {
        assert forall i | 0 < i < |options| :: options[i] == options[1..][i - 1];
      }
      assert forall i | 0 <= i < |options[1..]| :: options[1..][i] == options[i + 1];
    }
  }

  /** One step of the walk. Behind a wrong status one element is passed over: a status there counts as skipped. */
  lemma WalkStep(skipped: nat, rest: seq<Option>, code: u16)
    ensures Leftover(skipped + |StatusesOf([])|, [], code) == skipped + 1
    ensures rest != [] && !IsStatus(rest[0]) ==>
              Leftover(skipped + |StatusesOf(rest)|, rest, code)
                  == Leftover(skipped + |StatusesOf(rest[1..])|, rest[1..], code)
    ensures rest != [] && IsStatusOf(rest[0], code) ==>
              Leftover(skipped + |StatusesOf(rest)|, rest, code) == skipped + 1 + |StatusesOf(rest[1..])|
    ensures |rest| == 1 && IsStatus(rest[0]) && !IsStatusOf(rest[0], code) ==>
              Leftover(skipped + |StatusesOf(rest)|, rest, code) == skipped + 1
  {
    if |rest| == 1 {
      assert rest[1..] == [];
    }
  }

  lemma WrongStatusStep(skipped: nat, rest: seq<Option>, code: u16)
    requires |rest| > 1 && IsStatus(rest[0]) && !IsStatusOf(rest[0], code)
    ensures var passed := if IsStatus(rest[1]) then skipped + 1 else skipped;
            Leftover(skipped + |StatusesOf(rest)|, rest, code)
                == Leftover(passed + |StatusesOf(rest[2..])|, rest[2..], code)
  {
    assert rest[1..][0] == rest[1] && rest[1..][1..] == rest[2..];
    assert |StatusesOf(rest)| == 1 + |StatusesOf(rest[1..])|;
    assert |StatusesOf(rest[1..])| == |StatusesOf(rest[2..])| + if IsStatus(rest[1]) then 1 else 0;
  }

  lemma {:induction false} LeftoverIsOne(skipped: nat, rest: seq<Option>, code: u16)
    ensures Leftover(skipped + |StatusesOf(rest)|, rest, code) >= 1
    ensures Leftover(skipped + |StatusesOf(rest)|, rest, code) == 1 <==> skipped == 0 && Separated(rest, code)
    decreases |rest|
  {
    hide Leftover, StatusesOf, Separated;
    WalkStep(skipped, rest, code);
    OneIsSeparated(rest, code);
    if rest != [] {
      SeparatedTail(rest, code);
      if !IsStatus(rest[0]) {
        LeftoverIsOne(skipped, rest[1..], code);
      } else if |rest| > 1 && !IsStatusOf(rest[0], code) {
        WrongStatusStep(skipped, rest, code);
        LeftoverIsOne(if IsStatus(rest[1]) then skipped + 1 else skipped, rest[2..], code);
      }
    }
  }

  lemma OneIsSeparated(rest: seq<Option>, code: u16)
    ensures |rest| <= 1 ==> Separated(rest, code)
  {
  }

  /**
   `force_status` leaves exactly one status option just when the list it is given is separated.
   Otherwise it leaves more: removing from the list it walks over makes it skip an element.
   */
  lemma ForceStatusIsExact(options: seq<Option>, status: Option)
    requires IsStatus(status)
    ensures |StatusesOf(ForceFrom(options, 0, status))| >= 1
    ensures |StatusesOf(ForceFrom(options, 0, status))| == 1 <==> Separated(options, status.leaf.status)
  {
    ForceCount(options, 0, status);
    assert options[0..] == options;
    LeftoverIsOne(0, options, status.leaf.status);
  }

  /** In particular two wrong statuses in a row end up as one wrong and one right one. */
  lemma AdjacentStatusesSurvive(a: Option, b: Option, status: Option)
    requires IsStatus(a) && IsStatus(b) && IsStatus(status) && a != b
    requires a.leaf.status != status.leaf.status && b.leaf.status != status.leaf.status
    ensures ForceFrom([a, b], 0, status) == [b, status]
  {
    assert Remove([a, b], a) == [b];
  }
}
