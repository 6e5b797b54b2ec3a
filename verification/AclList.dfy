/** acl_update.c, parseACL: a list of comma-separated entries, stored in an array. */
module AclList {
  import opened AclText
  import opened Sequences

  const MAX_ENTRIES := 10000

  /** The text between the commas. */
  function Fields(s: string): (fs: seq<string>)
    ensures |fs| > 0
    decreases |s|
  {
    var k := IndexOf(s, ',');
    if k == -1 then [s] else [s[..k]] + Fields(s[k + 1..])
  }

  /** What each field parses to. */
  function Results(s: string, permsReqd: bool, db: Database): (rs: seq<Option<Entry>>)
    ensures |rs| == |Fields(s)|
  {
    seq(|Fields(s)|, i requires 0 <= i < |Fields(s)| => ParseEntry(Fields(s)[i], permsReqd, db))
  }

  /** Every field parses, to these entries, and there is room for all. */
  predicate IsList(results: seq<Option<Entry>>, es: seq<Entry>) {
    |es| == |results| <= MAX_ENTRIES && forall i :: 0 <= i < |es| ==> results[i] == Some(es[i])
  }

  /** The first `n` entries are stored. */
  ghost predicate Stored(results: seq<Option<Entry>>, aclist: seq<Entry>, n: nat) {
    n <= |results| && n <= |aclist| && forall i :: 0 <= i < n ==> results[i] == Some(aclist[i])
  }

  /** The text from each field on. */
  function Tails(s: string): (ts: seq<string>)
    ensures |ts| == |Fields(s)|
    decreases |s|
  {
    var k := IndexOf(s, ',');
    if k == -1 then [s] else [s] + Tails(s[k + 1..])
  }

  /** Where field `n` ends, and what comes after it. */
  ghost predicate CutAt(tails: seq<string>, fs: seq<string>, n: nat)
    requires n < |tails| == |fs|
  {
    var comma := IndexOf(tails[n], ',');
    if comma == -1 then fs[n] == tails[n] && n + 1 == |fs|
    else fs[n] == tails[n][..comma] && n + 1 < |fs| && tails[n + 1] == tails[n][comma + 1..]
  }

  ghost predicate Cuts(tails: seq<string>, fs: seq<string>) {
    |tails| == |fs| && forall n {:trigger CutAt(tails, fs, n)} :: 0 <= n < |fs| ==> CutAt(tails, fs, n)
  }

  /** With one more field in front the later ones are cut as before. */
  lemma {:induction false} CutLater(tails: seq<string>, fs: seq<string>, tail: string, field: string, n: nat)
    requires n < |tails| == |fs| && CutAt(tails, fs, n)
    ensures CutAt([tail] + tails, [field] + fs, n + 1)
  {
    var ts, gs := [tail] + tails, [field] + fs;
    assert ts[n + 1] == tails[n] && gs[n + 1] == fs[n];
    assert n + 1 < |fs| ==> ts[n + 2] == tails[n + 1];
  }

  lemma {:induction false} CutFirst(s: string, tails: seq<string>, fs: seq<string>)
    requires var comma := IndexOf(s, ','); comma != -1 && |tails| == |fs| > 0 && tails[0] == s[comma + 1..]
    ensures CutAt([s] + tails, [s[..IndexOf(s, ',')]] + fs, 0)
  {
    assert ([s] + tails)[1] == tails[0];
  }

  lemma {:induction false} FirstTail(s: string)
    ensures Tails(s)[0] == s
  {
  }

  lemma {:induction false} CutStep(s: string, tails: seq<string>, fs: seq<string>, n: nat)
    requires var comma := IndexOf(s, ','); comma != -1 && |tails| == |fs| > 0 && tails[0] == s[comma + 1..]
    requires n <= |fs| && (n > 0 ==> CutAt(tails, fs, n - 1))
    ensures CutAt([s] + tails, [s[..IndexOf(s, ',')]] + fs, n)
  {
    if n == 0 {
      CutFirst(s, tails, fs);
    } else {
      CutLater(tails, fs, s, s[..IndexOf(s, ',')], n - 1);
    }
  }

  lemma {:induction false} TailsCut(s: string, n: nat)
    requires n < |Fields(s)|
    ensures CutAt(Tails(s), Fields(s), n)
    decreases |s|
  {
    var comma := IndexOf(s, ',');
    if comma == -1 {
    } else {
      var rest := s[comma + 1..];
      if n > 0 {
        TailsCut(rest, n - 1);
      }
      FirstTail(rest);
      CutStep(s, Tails(rest), Fields(rest), n);
    }
  }

  function ResultAt(fs: seq<string>, i: nat, permsReqd: bool, db: Database): Option<Entry>
    requires i < |fs|
  {
    ParseEntry(fs[i], permsReqd, db)
  }

  ghost predicate AreResults(fs: seq<string>, results: seq<Option<Entry>>, permsReqd: bool, db: Database) {
    && |results| == |fs|
    && forall i {:trigger ResultAt(fs, i, permsReqd, db)} :: 0 <= i < |fs| ==> results[i] == ResultAt(fs, i, permsReqd, db)
  }

  /** The text up to the next comma, and what follows it. */
  method CutField(next: string, ghost tails: seq<string>, ghost fs: seq<string>, ghost n: nat)
    returns (field: string, more: bool, next': string)
    requires Cuts(tails, fs) && n < |fs| && next == tails[n]
    ensures field == fs[n] && (more <==> n + 1 < |fs|) && (more ==> next' == tails[n + 1])
  {
    assert CutAt(tails, fs, n);
    var comma := IndexOf(next, ',');
    if comma == -1 {
      return next, false, "";
    }
    return next[..comma], true, next[comma + 1..];
  }

  /** parseEntrySpec on field `n`, filling in aclist[n]; on failure what that holds is
      left open. */
  method StoreEntry(field: string, aclist: array<Entry>, n: nat, permsReqd: bool, db: Database,
                    ghost fs: seq<string>, ghost results: seq<Option<Entry>>)
    returns (ok: bool)
    requires n < aclist.Length && n < |fs| && field == fs[n] && AreResults(fs, results, permsReqd, db)
    modifies aclist
    ensures ok <==> results[n] != None
    ensures ok ==> results[n] == Some(aclist[n])
    ensures forall i :: 0 <= i < aclist.Length && i != n ==> aclist[i] == old(aclist[i])
  {
    var e := ParseEntrySpec(field, permsReqd, db);
    assert e == ResultAt(fs, n, permsReqd, db);
    ok := e != None;
    if ok {
      aclist[n] := e.value;
    } else {
      aclist[n] := *;
    }
  }

  /** The loop of parseACL, for a text whose fields parse to `results`. */
  method StoreAll(aclStr: string, aclist: array<Entry>, permsReqd: bool, db: Database,
                  ghost tails: seq<string>, ghost fs: seq<string>, ghost results: seq<Option<Entry>>)
    returns (r: int, ghost n: nat)
    requires aclist.Length == MAX_ENTRIES && Cuts(tails, fs) && fs != [] && aclStr == tails[0]
    requires AreResults(fs, results, permsReqd, db)
    modifies aclist
    ensures n <= |results| && n <= MAX_ENTRIES && forall i :: 0 <= i < n ==> results[i] == Some(aclist[i])
    ensures r != -1 ==> 0 < r == n == |results|
    ensures r == -1 ==> n < |results| && (n < MAX_ENTRIES ==> results[n] == None)
    ensures forall i :: (if r == -1 then n + 1 else n) <= i < aclist.Length ==> aclist[i] == old(aclist[i])
  {
    var next, k := aclStr, 0;
    n := 0;
    while true
      invariant k == n < |fs| == |results| && n <= MAX_ENTRIES && next == tails[n]
      invariant forall i :: 0 <= i < n ==> results[i] == Some(aclist[i])
      invariant forall i :: n <= i < aclist.Length ==> aclist[i] == old(aclist[i])
      decreases |fs| - n
    {
      if k >= MAX_ENTRIES {
        return -1, n;
      }
      var field, more, next' := CutField(next, tails, fs, n);
      var ok := StoreEntry(field, aclist, k, permsReqd, db, fs, results);
      if !ok {
        return -1, n;
      }
      n := n + 1;
      if !more {
        return k + 1, n;
      }
      next, k := next', k + 1;
    }
  }

  /** parseACL. A result other than -1 is the number of entries, and they are what the
      fields parse to; the result is -1 exactly if some field does not parse or there
      are too many. In any case the first `n` entries are stored, and nothing is
      written beyond the entry being parsed. */
  method ParseACL(aclStr: string, aclist: array<Entry>, permsReqd: bool, db: Database) returns (r: int, ghost n: nat)
    requires aclist.Length == MAX_ENTRIES
    modifies aclist
    ensures r == -1 || 0 < r == n <= MAX_ENTRIES
    ensures r != -1 ==> IsList(Results(aclStr, permsReqd, db), aclist[..n])
    ensures r == -1 ==> forall es :: !IsList(Results(aclStr, permsReqd, db), es)
    ensures Stored(Results(aclStr, permsReqd, db), aclist[..], n)
    ensures forall i :: (if r == -1 then n + 1 else n) <= i < aclist.Length ==> aclist[i] == old(aclist[i])
  {
    forall n | 0 <= n < |Fields(aclStr)| ensures CutAt(Tails(aclStr), Fields(aclStr), n) {
      TailsCut(aclStr, n);
    }
    FirstTail(aclStr);
    r, n := StoreAll(aclStr, aclist, permsReqd, db, Tails(aclStr), Fields(aclStr), Results(aclStr, permsReqd, db));
  }

  // ----- printing and reading back

  /** Texts separated by commas. */
  function Join(texts: seq<string>): string
    requires |texts| > 0
  {
    if |texts| == 1 then texts[0] else texts[0] + [','] + Join(texts[1..])
  }

  lemma {:induction false} FieldsOfFirst(first: string, rest: string)
    requires ',' !in first
    ensures Fields(first) == [first] && Fields(first + [','] + rest) == [first] + Fields(rest)
  {
    var s := first + [','] + rest;
    IndexOfNone(first, ',');
    IndexOfAt(first, ',', rest);
    assert s[..|first|] == first && s[|first| + 1..] == rest;
  }

  /** Splitting at commas inverts joining with them. */
  lemma {:induction false} FieldsOfJoin(texts: seq<string>)
    requires |texts| > 0 && forall i :: 0 <= i < |texts| ==> ',' !in texts[i]
    ensures Fields(Join(texts)) == texts
    decreases |texts|
  {
    if |texts| == 1 {
      FieldsOfFirst(texts[0], "");
    } else {
      FieldsOfFirst(texts[0], Join(texts[1..]));
      FieldsOfJoin(texts[1..]);
    }
  }

  function Printed(es: seq<Entry>, forms: seq<Form>): seq<string>
    requires |es| == |forms|
  {
    seq(|es|, i requires 0 <= i < |es| => Print(es[i], forms[i]))
  }

  lemma {:induction false} PrintHasNoComma(e: Entry, form: Form)
    ensures ',' !in Print(e, form)
  {
    DigitsHaveNo(e.qual, ',');
    assert ',' !in TagName(e.tag, form.long);
    assert ',' !in AfterQual(e.perms, form);
  }

  /** parseACL inverts printing. A non-empty list of entries, each printed in any of
      its forms, is read back unchanged exactly if there are at most MAX_ENTRIES and
      each can be read back. */
  lemma {:induction false} RoundTrip(es: seq<Entry>, forms: seq<Form>, permsReqd: bool, db: Database)
    requires |es| == |forms| > 0
    ensures IsList(Results(Join(Printed(es, forms)), permsReqd, db), es) <==>
            |es| <= MAX_ENTRIES && forall i :: 0 <= i < |es| ==> forms[i].WithPerms? == permsReqd && Printable(es[i], forms[i])
  {
    var texts := Printed(es, forms);
    forall i | 0 <= i < |es|
      ensures ',' !in texts[i]
      ensures ParseEntry(texts[i], permsReqd, db) == Some(es[i]) <==> forms[i].WithPerms? == permsReqd && Printable(es[i], forms[i])
    {
      EntryRoundTrip(es[i], forms[i], permsReqd, db);
      PrintHasNoComma(es[i], forms[i]);
    }
    FieldsOfJoin(texts);
    ResultsAre(Join(texts), texts, permsReqd, db);
  }

  lemma {:induction false} ResultsAre(s: string, texts: seq<string>, permsReqd: bool, db: Database)
    requires Fields(s) == texts
    ensures var rs := Results(s, permsReqd, db);
            |rs| == |texts| && forall i :: 0 <= i < |texts| ==> rs[i] == ParseEntry(texts[i], permsReqd, db)
  {
  }
}
