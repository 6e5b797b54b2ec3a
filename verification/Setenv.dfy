/** setenv.c: unsetenv and setenv over the NULL-terminated array `environ`,
    compacted in place. Strings are C strings: no NUL inside. */
module Setenv {
  import opened Sequences

  /** A char pointer. */
  datatype CharPtr = Null | Str(text: string)

  /** The entry assigns a value to `name`: it starts with `name` followed by '='. */
  predicate Defines(entry: string, name: string) {
    |name| < |entry| && entry[..|name|] == name && entry[|name|] == '='
  }

  predicate ValidName(name: CharPtr) {
    name.Str? && name.text != "" && '=' !in name.text
  }

  /** The environment a NULL-terminated array stands for. */
  function Entries(slots: seq<CharPtr>): (es: seq<string>)
    ensures |es| <= |slots|
    ensures forall i :: 0 <= i < |es| ==> slots[i] == Str(es[i])
    ensures |es| < |slots| ==> slots[|es|] == Null
  {
    if slots == [] || slots[0] == Null then [] else [slots[0].text] + Entries(slots[1..])
  }

  /** The entries are determined by the slots before the first NULL. */
  lemma {:induction false} EntriesAre(slots: seq<CharPtr>, es: seq<string>)
    requires |es| < |slots| && slots[|es|] == Null
    requires forall i :: 0 <= i < |es| ==> slots[i] == Str(es[i])
    ensures Entries(slots) == es
  {
    if es == [] {
    } else {
      EntriesAre(slots[1..], es[1..]);
    }
  }

  /** The slots after the entries behind position `ep` have moved up by one. */
  lemma {:induction false} ClosedGap(was: seq<CharPtr>, now: seq<CharPtr>, es: seq<string>, ep: nat)
    requires es == Entries(was) && ep < |es| < |was| == |now|
    requires forall i :: 0 <= i < ep ==> now[i] == was[i]
    requires forall i, j {:trigger now[i], was[j]} :: ep <= i < |es| && j == i + 1 ==> now[i] == was[j]
    ensures Entries(now) == es[..ep] + es[ep + 1..]
  {
    EntriesAre(now, es[..ep] + es[ep + 1..]);
  }

  function Without(es: seq<string>, name: string): seq<string> {
    if es == [] then []
    else (if Defines(es[0], name) then [] else [es[0]]) + Without(es[1..], name)
  }

  /** The scan has kept the first `ep` entries and has yet to look at the rest. */
  function Scanned(es: seq<string>, ep: nat, name: string): seq<string>
    requires ep <= |es|
  {
    es[..ep] + Without(es[ep..], name)
  }

  lemma {:induction false} ScanOne(es: seq<string>, ep: nat, name: string)
    requires ep < |es|
    ensures if Defines(es[ep], name)
            then Scanned(es, ep, name) == Scanned(es[..ep] + es[ep + 1..], ep, name)
            else Scanned(es, ep, name) == Scanned(es, ep + 1, name)
  {
    assert es[ep..][1..] == es[ep + 1..];
    if Defines(es[ep], name) {
      var rest := es[..ep] + es[ep + 1..];
      assert rest[..ep] == es[..ep] && rest[ep..] == es[ep + 1..];
    } else {
      assert es[..ep] + [es[ep]] == es[..ep + 1];
    }
  }

  /** getenv: the value in the first entry that defines `name`. */
  function Lookup(es: seq<string>, name: string): Option<string> {
    if es == [] then None
    else if Defines(es[0], name) then Some(es[0][|name| + 1..])
    else Lookup(es[1..], name)
  }

  class Environment {
    var environ: array<CharPtr>

    ghost predicate Valid()
      reads this, environ
    {
      |Entries(environ[..])| < environ.Length
    }

    ghost function Contents(): seq<string>
      reads this, environ
    {
      Entries(environ[..])
    }

    constructor (entries: seq<string>)
      ensures Valid() && fresh(environ) && Contents() == entries
    {
      environ := new CharPtr[|entries| + 1](i => if 0 <= i < |entries| then Str(entries[i]) else Null);
      new;
      EntriesAre(environ[..], entries);
    }

    /** Shift all entries after `ep` back by one, up to and including the NULL. */
    method CloseGap(ep: nat)
      requires Valid() && ep < |Contents()|
      modifies environ
      ensures Valid() && Contents() == old(Contents())[..ep] + old(Contents())[ep + 1..]
    {
      ghost var es, was := Contents(), environ[..];
      var sp := ep;
      while environ[sp] != Null
        invariant ep <= sp <= |es| < environ.Length
        invariant forall i :: 0 <= i < environ.Length && (i < ep || sp <= i) ==> environ[i] == was[i]
        invariant forall i, j {:trigger environ[i], was[j]} :: ep <= i < sp && j == i + 1 ==> environ[i] == was[j]
        decreases |es| - sp
      {
        environ[sp] := environ[sp + 1];
        sp := sp + 1;
      }
      ClosedGap(was, environ[..], es, ep);
    }

    /** unsetenv: every definition of `name` goes, all other entries stay in order. */
    method Unsetenv(name: CharPtr) returns (r: int)
      requires Valid()
      modifies environ
      ensures Valid()
      ensures !ValidName(name) ==> r == -1 && Contents() == old(Contents())
      ensures ValidName(name) ==> r == 0 && Contents() == Without(old(Contents()), name.text)
    {
      if name == Null || name.text == "" || '=' in name.text {
        return -1;
      }
      var ep := 0;
      ghost var goal := Without(Contents(), name.text);
      while environ[ep] != Null
        invariant Valid() && ep <= |Contents()|
        invariant Scanned(Contents(), ep, name.text) == goal
        decreases |Contents()| - ep
      {
        assert environ[..][ep] == environ[ep];
        ScanOne(Contents(), ep, name.text);
        if Defines(environ[ep].text, name.text) {
          CloseGap(ep);
        } else {
          ep := ep + 1;
        }
      }
      assert environ[..][ep] == environ[ep];
      return 0;
    }

    /** getenv: search from the front. */
    method Getenv(name: string) returns (v: Option<string>)
      requires Valid()
      ensures v == Lookup(Contents(), name)
    {
      var i := 0;
      while environ[i] != Null
        invariant i <= |Contents()|
        invariant Lookup(Contents(), name) == Lookup(Contents()[i..], name)
        decreases |Contents()| - i
      {
        assert environ[..][i] == environ[i];
        if Defines(environ[i].text, name) {
          return Some(environ[i].text[|name| + 1..]);
        }
        i := i + 1;
      }
      return None;
    }

    /** putenv of a string whose name is not defined yet: the array grows by one, if
        there is memory for it. */
    method Putenv(entry: string, memory: bool) returns (r: int)
      requires Valid()
      modifies this
      ensures Valid() && r == if memory then 0 else -1
      ensures Contents() == old(Contents()) + if memory then [entry] else []
    {
      if !memory {
        return -1;
      }
      var n := 0;
      while environ[n] != Null
        invariant n <= |Contents()|
        decreases |Contents()| - n
      {
        assert environ[..][n] == environ[n];
        n := n + 1;
      }
      assert environ[..][n] == environ[n];
      ghost var es := Contents();
      var was := environ;
      environ := new CharPtr[n + 2](i => Null);
      forall i | 0 <= i < n { environ[i] := was[i]; }
      environ[n] := Str(entry);
      forall i | 0 <= i < n ensures environ[i] == Str(es[i]) { assert was[i] == was[..][i]; }
      EntriesAre(environ[..], es + [entry]);
      return 0;
    }

    /** setenv; `malloc` and `putenv` say whether there is memory for these calls. */
    method Setenv(name: CharPtr, value: CharPtr, overwrite: int, malloc: bool, putenv: bool) returns (r: int)
      requires Valid()
      modifies this, environ
      ensures Valid()
      ensures !ValidName(name) || value == Null ==> r == -1 && Contents() == old(Contents())
      ensures ValidName(name) && value.Str? ==>
                if Lookup(old(Contents()), name.text).Some? && overwrite == 0 then
                  r == 0 && Contents() == old(Contents())
                else if malloc && putenv then
                  r == 0 && Contents() == Assigned(old(Contents()), name.text, value.text)
                else
                  r == -1 && Contents() == Without(old(Contents()), name.text)
    {
      if name == Null || name.text == "" || '=' in name.text || value == Null {
        return -1;
      }
      var current := Getenv(name.text);
      if current.Some? && overwrite == 0 {
        return 0;
      }
      var _ := Unsetenv(name);
      if !malloc {
        return -1;
      }
      var s := Putenv(name.text + "=" + value.text, putenv);
      return if s != 0 then -1 else 0;
    }
  }

  /** The environment in which `name` has just been given `value`. */
  function Assigned(es: seq<string>, name: string, value: string): seq<string> {
    Without(es, name) + [name + "=" + value]
  }

  /** An entry defines at most one name without '='. */
  lemma {:induction false} DefinesOne(entry: string, a: string, b: string)
    requires Defines(entry, a) && Defines(entry, b) && '=' !in a && '=' !in b
    ensures a == b
  {
  }

  lemma {:induction false} NewEntry(name: string, value: string)
    ensures Defines(name + "=" + value, name)
    ensures (name + "=" + value)[|name| + 1..] == value
  {
    assert (name + "=" + value)[..|name|] == name;
  }

  lemma {:induction false} LookupConcat(es: seq<string>, more: seq<string>, name: string)
    ensures Lookup(es + more, name) == if Lookup(es, name).Some? then Lookup(es, name) else Lookup(more, name)
  {
    if es == [] {
      assert es + more == more;
    } else {
      assert (es + more)[1..] == es[1..] + more;
      LookupConcat(es[1..], more, name);
    }
  }

  /** How many entries define `name`. */
  function Definitions(es: seq<string>, name: string): nat {
    if es == [] then 0 else (if Defines(es[0], name) then 1 else 0) + Definitions(es[1..], name)
  }

  lemma {:induction false} DefinitionsConcat(es: seq<string>, more: seq<string>, name: string)
    ensures Definitions(es + more, name) == Definitions(es, name) + Definitions(more, name)
  {
    if es == [] {
      assert es + more == more;
    } else {
      assert (es + more)[1..] == es[1..] + more;
      DefinitionsConcat(es[1..], more, name);
    }
  }

  /** An entry defines a name exactly if it is that name, '=' and some value. */
  lemma {:induction false} DefinesExactly(entry: string, name: string)
    ensures Defines(entry, name) <==> exists value: string :: entry == name + "=" + value
  {
    if Defines(entry, name) {
      assert entry == name + "=" + entry[|name| + 1..];
    }
    forall value: string | entry == name + "=" + value ensures Defines(entry, name) {
      NewEntry(name, value);
    }
  }

  /** What unsetenv leaves, malformed entries included: entry `i` of the rest is entry
      at[i] of the whole; the order is the same, and only definitions of the name are
      missing. */
  lemma {:induction false} WithoutExactly(es: seq<string>, name: string) returns (at: seq<nat>)
    ensures |at| == |Without(es, name)|
    ensures forall i :: 0 <= i < |at| ==> at[i] < |es| && es[at[i]] == Without(es, name)[i]
    ensures forall i, j :: 0 <= i < j < |at| ==> at[i] < at[j]
    ensures forall k :: 0 <= k < |es| ==> (k in at <==> !Defines(es[k], name))
  {
    at := [];
    for n := 0 to |es|
      invariant |at| == |Without(es[..n], name)|
      invariant forall i :: 0 <= i < |at| ==> at[i] < n && es[at[i]] == Without(es[..n], name)[i]
      invariant forall i, j :: 0 <= i < j < |at| ==> at[i] < at[j]
      invariant forall k :: 0 <= k < n ==> (k in at <==> !Defines(es[k], name))
    {
      assert es[..n + 1] == es[..n] + [es[n]];
      WithoutConcat(es[..n], [es[n]], name);
      if !Defines(es[n], name) {
        at := at + [n];
      }
    }
    assert es[..|es|] == es;
  }

  /** getenv gives the value in the first definition of the name; None if there is none. */
  lemma {:induction false} LookupExactly(es: seq<string>, name: string)
    ensures Lookup(es, name) == None <==> forall i :: 0 <= i < |es| ==> !Defines(es[i], name)
    ensures forall i, value: string :: 0 <= i < |es| && es[i] == name + "=" + value && (forall j :: 0 <= j < i ==> !Defines(es[j], name)) ==>
              Lookup(es, name) == Some(value)
  {
    if es == [] {
    } else {
      LookupExactly(es[1..], name);
      forall i, value: string | 0 <= i < |es| && es[i] == name + "=" + value && (forall j :: 0 <= j < i ==> !Defines(es[j], name))
        ensures Lookup(es, name) == Some(value)
      {
        NewEntry(name, value);
        if i > 0 {
          assert es[1..][i - 1] == es[i];
          assert forall j :: 0 <= j < i - 1 ==> es[1..][j] == es[j + 1];
        }
      }
      assert forall i :: 0 < i < |es| ==> es[i] == es[1..][i - 1];
      assert forall i :: 0 <= i < |es| - 1 ==> es[1..][i] == es[i + 1];
    }
  }

  /** After unsetenv the name is gone and every other name has its old value. */
  lemma {:induction false} UnsetLaws(es: seq<string>, name: string, other: string)
    requires '=' !in name && '=' !in other
    ensures Definitions(Without(es, name), name) == 0
    ensures Lookup(Without(es, name), name) == None
    ensures other != name ==>
              && Lookup(Without(es, name), other) == Lookup(es, other)
              && Definitions(Without(es, name), other) == Definitions(es, other)
  {
    if es == [] {
    } else {
      UnsetLaws(es[1..], name, other);
      if Defines(es[0], name) {
        assert Without(es, name) == Without(es[1..], name);
        if Defines(es[0], other) {
          DefinesOne(es[0], name, other);
        }
      } else {
        assert Without(es, name)[1..] == Without(es[1..], name);
      }
    }
  }

  /** After setenv the name has exactly one definition and exactly this value,
      even one that contains '='; every other name is as before. */
  lemma {:induction false} SetLaws(es: seq<string>, name: string, value: string, other: string)
    requires '=' !in name && '=' !in other
    ensures Definitions(Assigned(es, name, value), name) == 1
    ensures Lookup(Assigned(es, name, value), name) == Some(value)
    ensures other != name ==>
              && Lookup(Assigned(es, name, value), other) == Lookup(es, other)
              && Definitions(Assigned(es, name, value), other) == Definitions(es, other)
  {
    var entry := name + "=" + value;
    UnsetLaws(es, name, other);
    NewEntry(name, value);
    LookupConcat(Without(es, name), [entry], name);
    LookupConcat(Without(es, name), [entry], other);
    DefinitionsConcat(Without(es, name), [entry], name);
    DefinitionsConcat(Without(es, name), [entry], other);
    if Defines(entry, other) {
      DefinesOne(entry, name, other);
    }
  }

  lemma {:induction false} WithoutConcat(es: seq<string>, more: seq<string>, name: string)
    ensures Without(es + more, name) == Without(es, name) + Without(more, name)
  {
    if es == [] {
      assert es + more == more;
    } else {
      assert (es + more)[1..] == es[1..] + more;
      WithoutConcat(es[1..], more, name);
    }
  }

  lemma {:induction false} WithoutTwice(es: seq<string>, name: string)
    ensures Without(Without(es, name), name) == Without(es, name)
  {
    if es == [] {
    } else {
      WithoutTwice(es[1..], name);
      var head := if Defines(es[0], name) then [] else [es[0]];
      WithoutConcat(head, Without(es[1..], name), name);
    }
  }

  /** The last setenv wins, and unsetenv undoes setenv of a new name. */
  lemma {:induction false} SetUndo(es: seq<string>, name: string, first: string, second: string)
    ensures Assigned(Assigned(es, name, first), name, second) == Assigned(es, name, second)
    ensures Without(Assigned(es, name, first), name) == Without(es, name)
  {
    NewEntry(name, first);
    WithoutConcat(Without(es, name), [name + "=" + first], name);
    WithoutTwice(es, name);
  }
}
