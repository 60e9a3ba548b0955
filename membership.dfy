/**
  The bookkeeping that grant and strip do on one entity, shared by roles and
  firstNames alike.

  An entity holds labels in two places: its ordered relationship list
  (`entity.names` or `entity.firstNames`) and the rows of an association table,
  one per held label, each carrying a `managed_by_auth` flag. `Held` pairs the
  two; `Linked` says they agree.
*/
module Membership {

  datatype Held = Held(names: seq<string>, flags: map<string, bool>)

  predicate NoDup(s: seq<string>) {
    forall i, j :: 0 <= i < j < |s| ==> s[i] != s[j]
  }

  /** Each held label appears once in the list and has exactly one association row. */
  ghost predicate Linked(h: Held) {
    NoDup(h.names) && forall x :: x in h.flags <==> x in h.names
  }

  /** The position of the first occurrence of `x` in `s`. */
  function FirstIndex(s: seq<string>, x: string): (k: nat)
    requires x in s
    ensures k < |s| && s[k] == x && x !in s[..k]
  {
    if s[0] == x then 0 else 1 + FirstIndex(s[1..], x)
  }

  /** Python's `list.remove(x)`: drops the first occurrence of `x`. */
  function Removed(s: seq<string>, x: string): seq<string> {
    if s == [] then []
    else if s[0] == x then s[1..]
    else [s[0]] + Removed(s[1..], x)
  }

  /** Appending a label that is not yet held (`entity.names.append`), with a new
      association row whose flag is the column default, or true for a managed grant;
      a label already held leaves everything as it is, flag included. */
  function Grant(h: Held, x: string, managed: bool, rowDefault: bool): Held {
    if x in h.names then h
    else Held(h.names + [x], h.flags[x := if managed then true else rowDefault])
  }

  /** Removing a held label from the list together with its association row;
      a label not held leaves everything as it is. */
  function Strip(h: Held, x: string): Held {
    if x in h.names then Held(Removed(h.names, x), h.flags - {x}) else h
  }

  /** Unmanaged grants of `xs`, one after the other, in sequence order. */
  function GrantEach(h: Held, xs: seq<string>, rowDefault: bool): Held
    decreases |xs|
  {
    if xs == [] then h
    else Grant(GrantEach(h, xs[..|xs| - 1], rowDefault), xs[|xs| - 1], false, rowDefault)
  }

  /** The length of the longest prefix of `xs` whose labels all exist: the grants a
      loop makes before the first lookup that fails. */
  function KnownPrefix(xs: seq<string>, present: set<string>): (k: nat)
    ensures k <= |xs|
    ensures forall i :: 0 <= i < k ==> xs[i] in present
    ensures k < |xs| ==> xs[k] !in present
  {
    if xs == [] || xs[0] !in present then 0 else 1 + KnownPrefix(xs[1..], present)
  }

  /** A loop that stops at index `i`, having found every earlier label, stops where
      KnownPrefix says. */
  lemma {:induction false} KnownPrefixAt(xs: seq<string>, present: set<string>, i: nat)
    requires i <= |xs| && forall j :: 0 <= j < i ==> xs[j] in present
    requires i < |xs| ==> xs[i] !in present
    ensures KnownPrefix(xs, present) == i
  {
    if i > 0 {
      assert forall j :: 0 <= j < i - 1 ==> xs[1..][j] == xs[j + 1];
      KnownPrefixAt(xs[1..], present, i - 1);
    }
  }

  // ----- list.remove -----

  lemma {:induction false} RemovedFirst(s: seq<string>, x: string)
    requires x in s
    ensures var k := FirstIndex(s, x); Removed(s, x) == s[..k] + s[k + 1..]
  {
    if s[0] != x {
      RemovedFirst(s[1..], x);
      var k := FirstIndex(s[1..], x);
      assert s[1..][..k] == s[1..k + 1];
      assert [s[0]] + s[1..k + 1] == s[..k + 1];
      assert s[1..][k + 1..] == s[k + 2..];
    }
  }

  lemma {:induction false} RemovedAbsent(s: seq<string>, x: string)
    requires x !in s
    ensures Removed(s, x) == s
  {
    if s != [] {
      RemovedAbsent(s[1..], x);
      assert [s[0]] + s[1..] == s;
    }
  }

  lemma {:induction false} RemovedMembers(s: seq<string>, x: string)
    requires NoDup(s)
    ensures NoDup(Removed(s, x))
    ensures forall y :: y in Removed(s, x) <==> y in s && y != x
  {
    if s != [] {
      assert NoDup(s[1..]) by {
        forall i, j | 0 <= i < j < |s[1..]| ensures s[1..][i] != s[1..][j] {
          assert s[1..][i] == s[i + 1] && s[1..][j] == s[j + 1];
        }
      }
      if s[0] == x {
        assert x !in s[1..] by {
          forall i | 0 <= i < |s[1..]| ensures s[1..][i] != x {
            assert s[1..][i] == s[i + 1];
          }
        }
      } else {
        RemovedMembers(s[1..], x);
        var r := Removed(s[1..], x);
        assert s[0] !in s[1..] by {
          forall i | 0 <= i < |s[1..]| ensures s[1..][i] != s[0] {
            assert s[1..][i] == s[i + 1];
          }
        }
        forall i, j | 0 <= i < j < |[s[0]] + r| ensures ([s[0]] + r)[i] != ([s[0]] + r)[j] {
          if i == 0 {
            assert ([s[0]] + r)[j] == r[j - 1];
            assert r[j - 1] in r;
          } else {
            assert ([s[0]] + r)[i] == r[i - 1] && ([s[0]] + r)[j] == r[j - 1];
          }
        }
        assert forall y :: y in s <==> y == s[0] || y in s[1..] by {
          assert s == [s[0]] + s[1..];
        }
      }
    }
  }

  // ----- grant and strip on one entity -----

  /** Granting twice is granting once. */
  lemma GrantIdempotent(h: Held, x: string, managed: bool, managed': bool, rowDefault: bool)
    ensures Grant(Grant(h, x, managed, rowDefault), x, managed', rowDefault) == Grant(h, x, managed, rowDefault)
  {
  }

  /** After a grant the label is held exactly once, with exactly one association
      row; that row is new only if the label was not held, and only a new row's
      flag reflects `managed`. Nothing else changes. */
  lemma GrantEffect(h: Held, x: string, managed: bool, rowDefault: bool)
    requires Linked(h)
    ensures var g := Grant(h, x, managed, rowDefault);
      && Linked(g) && x in g.names
      && h.names <= g.names
      && (x !in h.names ==> g.names == h.names + [x] && g.flags[x] == (managed || rowDefault))
      && (x in h.names ==> g == h)
      && (forall y :: y != x ==> (y in g.names <==> y in h.names))
      && (forall y :: y != x && y in h.flags ==> y in g.flags && g.flags[y] == h.flags[y])
  {
    var g := Grant(h, x, managed, rowDefault);
    if x !in h.names {
      forall i, j | 0 <= i < j < |g.names| ensures g.names[i] != g.names[j] {
        if j == |h.names| {
          assert g.names[i] == h.names[i];
          assert h.names[i] in h.names;
        } else {
          assert g.names[i] == h.names[i] && g.names[j] == h.names[j];
        }
      }
    }
  }

  /** After a strip the label is no longer held and has no association row; the
      other labels keep their rows and their relative order: the list is the old
      list with the one occurrence of `x` cut out. */
  lemma StripEffect(h: Held, x: string)
    requires Linked(h)
    ensures var t := Strip(h, x);
      && Linked(t) && x !in t.names && x !in t.flags
      && (x !in h.names ==> t == h)
      && (x in h.names ==> var k := FirstIndex(h.names, x); t.names == h.names[..k] + h.names[k + 1..])
      && (forall y :: y != x ==> (y in t.names <==> y in h.names))
      && (forall y :: y != x && y in h.flags ==> y in t.flags && t.flags[y] == h.flags[y])
  {
    RemovedMembers(h.names, x);
    if x in h.names {
      RemovedFirst(h.names, x);
    }
  }

  /** Stripping a label just granted restores the entity exactly: list and rows. */
  lemma StripUndoesGrant(h: Held, x: string, managed: bool, rowDefault: bool)
    requires Linked(h) && x !in h.names
    ensures Strip(Grant(h, x, managed, rowDefault), x) == h
  {
    var g := Grant(h, x, managed, rowDefault);
    assert x in g.names;
    assert h.names == (h.names + [x])[..|h.names|];
    RemovedFirstAppended(h.names, x);
    assert x !in h.flags;
    assert g.flags - {x} == h.flags;
  }

  lemma {:induction false} RemovedFirstAppended(s: seq<string>, x: string)
    requires x !in s
    ensures Removed(s + [x], x) == s
  {
    if s != [] {
      assert (s + [x])[1..] == s[1..] + [x];
      RemovedFirstAppended(s[1..], x);
      assert [s[0]] + s[1..] == s;
    }
  }

  // ----- a sequence of grants -----

  /** A sequence of grants keeps everything held before, in place and in order,
      and afterwards holds exactly the old labels and those granted. */
  lemma {:induction false} GrantEachEffect(h: Held, xs: seq<string>, rowDefault: bool)
    requires Linked(h)
    ensures var g := GrantEach(h, xs, rowDefault);
      && Linked(g) && h.names <= g.names
      && (forall y :: y in g.names <==> y in h.names || y in xs)
    decreases |xs|
  {
    if xs != [] {
      var init := xs[..|xs| - 1];
      var last := xs[|xs| - 1];
      GrantEachEffect(h, init, rowDefault);
      GrantEffect(GrantEach(h, init, rowDefault), last, false, rowDefault);
      assert xs == init + [last];
    }
  }

  /** Granting labels that are all held already changes nothing. */
  lemma {:induction false} GrantEachOfHeld(h: Held, xs: seq<string>, rowDefault: bool)
    requires forall x :: x in xs ==> x in h.names
    ensures GrantEach(h, xs, rowDefault) == h
    decreases |xs|
  {
    if xs != [] {
      GrantEachOfHeld(h, xs[..|xs| - 1], rowDefault);
      assert xs[|xs| - 1] in xs;
    }
  }

  /** Repeating a sequence of grants is a no-op: update is safe to re-run. */
  lemma GrantEachIdempotent(h: Held, xs: seq<string>, rowDefault: bool)
    requires Linked(h)
    ensures GrantEach(GrantEach(h, xs, rowDefault), xs, rowDefault) == GrantEach(h, xs, rowDefault)
  {
    GrantEachEffect(h, xs, rowDefault);
    GrantEachOfHeld(GrantEach(h, xs, rowDefault), xs, rowDefault);
  }
}
