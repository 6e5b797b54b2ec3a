/** acl_update.c, the text form of one entry of an access control list:
    tag:[qualifier][:[perms]]. Strings are C strings: no NUL inside. */
module AclText {
  import opened Decimal
  import opened Limits
  import opened Sequences

  const ID_WORD := WORD                          // id_t is 32 bits wide
  const BAD_ID := WORD - 1                       // (id_t) -1

  const READ: bv8 := 4
  const WRITE: bv8 := 2
  const EXECUTE: bv8 := 1

  datatype Tag = UserObj | User | GroupObj | Group | Mask | Other

  datatype Entry = Entry(tag: Tag, qual: nat, perms: bv8)

  /** The password and group files: the number of a named user or group, if any. */
  datatype Database = Database(users: map<string, nat>, groups: map<string, nat>)

  /** strchr: position of the first `c`, or -1. */
  function IndexOf(s: string, c: char): (k: int)
    ensures -1 <= k < |s|
  {
    if s == "" then -1
    else if s[0] == c then 0
    else
      var k := IndexOf(s[1..], c);
      if k == -1 then -1 else k + 1
  }

  lemma {:induction false} IndexOfAt(a: string, c: char, b: string)
    requires c !in a
    ensures IndexOf(a + [c] + b, c) == |a|
  {
    if a == "" {
    } else {
      assert (a + [c] + b)[1..] == a[1..] + [c] + b;
      IndexOfAt(a[1..], c, b);
    }
  }

  lemma {:induction false} IndexOfNone(s: string, c: char)
    ensures IndexOf(s, c) == -1 <==> c !in s
  {
    if s == "" {
    } else {
      assert s == [s[0]] + s[1..];
      IndexOfNone(s[1..], c);
    }
  }

  // ----- numbers and names

  predicate IsSpace(c: char) {
    c == ' ' || '\t' <= c <= '\r'
  }

  function SkipSpace(s: string): string {
    if s != "" && IsSpace(s[0]) then SkipSpace(s[1..]) else s
  }

  /** strtol(s, &end, 10) for a string of which all is consumed; None if not all is. */
  function Strtol(s: string): Option<int> {
    Signed(SkipSpace(s))
  }

  /** What follows the white space. */
  function Signed(t: string): Option<int> {
    var negative := t != "" && t[0] == '-';
    var digits := if t != "" && (t[0] == '+' || t[0] == '-') then t[1..] else t;
    if digits == "" || !AllDigits(digits) then None
    else
      var v: int := Value(digits);
      Some(Clamp(if negative then -v else v))
  }

  /** Saturation at the limits of long. */
  function Clamp(v: int): (r: int)
    ensures -LONG_MAX - 1 <= r <= LONG_MAX
    ensures v <= r || r == LONG_MAX
    ensures r <= v || r == -LONG_MAX - 1
  {
    if v > LONG_MAX then LONG_MAX else if v < -LONG_MAX - 1 then -LONG_MAX - 1 else v
  }

  /** userIdFromName and groupIdFromName: a number, or a name looked up. */
  function IdFromName(name: string, names: map<string, nat>): nat {
    if name == "" then BAD_ID
    else
      var n := Strtol(name);
      if n.Some? then n.value % ID_WORD
      else if name in names then names[name] % ID_WORD
      else BAD_ID
  }

  lemma {:induction false} SkipsSpaces(sp: string, s: string)
    requires forall c :: c in sp ==> IsSpace(c)
    requires s != "" ==> !IsSpace(s[0])
    ensures SkipSpace(sp + s) == s
  {
    if sp == "" {
      assert sp + s == s;
    } else {
      assert sp[0] in sp && (sp + s)[1..] == sp[1..] + s;
      SkipsSpaces(sp[1..], s);
    }
  }

  lemma {:induction false} UnsignedReads(d: string)
    requires d != "" && AllDigits(d)
    ensures Signed(d) == Some(Clamp(Value(d))) && !IsSpace(d[0])
  {
    assert IsDigit(d[0]);
  }

  lemma {:induction false} SignedReads(c: char, d: string)
    requires (c == '+' || c == '-') && d != "" && AllDigits(d)
    ensures var v: int := Value(d); Signed([c] + d) == Some(Clamp(if c == '-' then -v else v))
  {
    assert ([c] + d)[0] == c && ([c] + d)[1..] == d;
  }

  lemma {:induction false} AfterSpaces(sp: string, t: string)
    requires (forall c :: c in sp ==> IsSpace(c)) && t != "" && !IsSpace(t[0])
    ensures Strtol(sp + t) == Signed(t)
  {
    SkipsSpaces(sp, t);
  }

  /** strtol reads any numeral, after white space and with or without a sign. */
  lemma {:induction false} StrtolReads(sp: string, c: char, n: int)
    requires (forall x :: x in sp ==> IsSpace(x)) && n >= 0 && (c == '+' || c == '-')
    ensures Strtol(sp + Digits(n)) == Some(Clamp(n))
    ensures Strtol(sp + ([c] + Digits(n))) == Some(Clamp(if c == '-' then -n else n))
  {
    var d := Digits(n);
    assert Value(d) == n by { ValueOfDigits(n); }
    UnsignedReads(d);
    AfterSpaces(sp, d);
    SignedReads(c, d);
    AfterSpaces(sp, [c] + d);
  }

  /** `s` is white space, a sign or none, and digits. */
  predicate IsNumeral(s: string, sp: string, sign: string, d: string) {
    && s == sp + (sign + d) && (forall c :: c in sp ==> IsSpace(c))
    && (sign == "" || sign == "+" || sign == "-") && d != "" && AllDigits(d)
  }

  ghost predicate Numeric(s: string) {
    exists sp, sign, d :: IsNumeral(s, sp, sign, d)
  }

  function Meant(sign: string, d: string): int
    requires AllDigits(d)
  {
    var v: int := Value(d);
    if sign == "-" then -v else v
  }

  lemma {:induction false} NumeralReads(s: string, sp: string, sign: string, d: string)
    requires IsNumeral(s, sp, sign, d)
    ensures Strtol(s) == Some(Clamp(Meant(sign, d)))
  {
    if sign == "" {
      assert sign + d == d;
      UnsignedReads(d);
      AfterSpaces(sp, d);
    } else {
      SignedReads(sign[0], d);
      assert sign == [sign[0]];
      AfterSpaces(sp, sign + d);
    }
  }

  lemma {:induction false} SpacesSkipped(s: string) returns (sp: string)
    ensures s == sp + SkipSpace(s) && forall c :: c in sp ==> IsSpace(c)
  {
    if s != "" && IsSpace(s[0]) {
      sp := SpacesSkipped(s[1..]);
      sp := [s[0]] + sp;
    } else {
      sp := "";
    }
  }

  /** For arbitrary text: strtol takes the whole of it exactly if it is white space, a
      sign or none, and at least one digit, and then gives the value, saturated. */
  lemma {:induction false} StrtolExactly(s: string)
    ensures Strtol(s) != None <==> Numeric(s)
    ensures forall sp, sign, d :: IsNumeral(s, sp, sign, d) ==> Strtol(s) == Some(Clamp(Meant(sign, d)))
  {
    forall sp, sign, d | IsNumeral(s, sp, sign, d) ensures Strtol(s) == Some(Clamp(Meant(sign, d))) {
      NumeralReads(s, sp, sign, d);
    }
    if Strtol(s) != None {
      var sp := SpacesSkipped(s);
      var t := SkipSpace(s);
      var k := if t[0] == '+' || t[0] == '-' then 1 else 0;
      assert t == t[..k] + t[k..];
      assert t[..k] == "" || t[..k] == [t[0]];
      assert IsNumeral(s, sp, t[..k], t[k..]);
    }
  }

  lemma {:induction false} NumeralBegins(s: string, sp: string, sign: string, d: string)
    requires IsNumeral(s, sp, sign, d)
    ensures s != "" && (IsDigit(s[0]) || IsSpace(s[0]) || s[0] == '+' || s[0] == '-')
  {
    if sp != "" {
      assert sp[0] in sp && s[0] == sp[0];
    } else if sign != "" {
      assert s == sign + d && s[0] == sign[0];
    } else {
      assert s == d && IsDigit(d[0]);
    }
  }

  /** A name that does not begin like a number is not one. */
  lemma {:induction false} BeginsWithLetter(s: string)
    requires s != "" && !IsDigit(s[0]) && !IsSpace(s[0]) && s[0] != '+' && s[0] != '-'
    ensures !Numeric(s)
  {
    if sp, sign, d :| IsNumeral(s, sp, sign, d) {
      NumeralBegins(s, sp, sign, d);
    }
  }

  /** What a text stands for: a number for itself modulo 2^32, and any other text for the
      number of that name. */
  lemma {:induction false} IdExactly(s: string, names: map<string, nat>)
    ensures forall sp, sign, d :: IsNumeral(s, sp, sign, d) ==> IdFromName(s, names) == Clamp(Meant(sign, d)) % ID_WORD
    ensures !Numeric(s) && s != "" ==> IdFromName(s, names) == if s in names then names[s] % ID_WORD else BAD_ID
    ensures s == "" ==> IdFromName(s, names) == BAD_ID
  {
    StrtolExactly(s);
  }

  lemma {:induction false} ClampedWord(n: int)
    requires n >= 0
    ensures Clamp(n) % ID_WORD == BAD_ID <==> n > LONG_MAX || n % ID_WORD == BAD_ID
    ensures Clamp(n) % ID_WORD == n <==> n < ID_WORD
  {
  }

  /** A numeral stands for itself modulo 2^32, so 4294967296 names user 0, and is
      refused exactly if that is the sentinel: 4294967295, or anything above LONG_MAX. */
  lemma {:induction false} NumeralParses(n: int, names: map<string, nat>)
    requires n >= 0
    ensures n <= LONG_MAX ==> IdFromName(Digits(n), names) == n % ID_WORD
    ensures IdFromName(Digits(n), names) == BAD_ID <==> n > LONG_MAX || n % ID_WORD == BAD_ID
    ensures IdFromName(Digits(n), names) == n <==> n < ID_WORD
  {
    var d := Digits(n);
    assert Strtol(d) == Some(Clamp(n)) by {
      StrtolReads("", '+', n);
      assert "" + d == d;
    }
    assert IdFromName(d, names) == Clamp(n) % ID_WORD;
    ClampedWord(n);
  }

  // ----- one entry

  /** The permission characters, added to `acc`; None on any but "rwx-". */
  function ParsePerms(s: string, acc: bv8): Option<bv8>
    decreases |s|
  {
    if s == "" then Some(acc)
    else if s[0] == 'r' then ParsePerms(s[1..], acc | READ)
    else if s[0] == 'w' then ParsePerms(s[1..], acc | WRITE)
    else if s[0] == 'x' then ParsePerms(s[1..], acc | EXECUTE)
    else if s[0] == '-' then ParsePerms(s[1..], acc)
    else None
  }

  predicate PermChar(c: char) { c == 'r' || c == 'w' || c == 'x' || c == '-' }

  lemma {:induction false} BitsAdded(acc: bv8)
    requires acc < 8
    ensures acc | READ < 8 && acc | WRITE < 8 && acc | EXECUTE < 8
    ensures (acc | READ) & READ != 0 && (acc | READ) & WRITE == acc & WRITE && (acc | READ) & EXECUTE == acc & EXECUTE
    ensures (acc | WRITE) & READ == acc & READ && (acc | WRITE) & WRITE != 0 && (acc | WRITE) & EXECUTE == acc & EXECUTE
    ensures (acc | EXECUTE) & READ == acc & READ && (acc | EXECUTE) & WRITE == acc & WRITE && (acc | EXECUTE) & EXECUTE != 0
  {
  }

  /** A permission string is accepted exactly if it consists of "rwx-", in any order
      and number, and grants what it mentions. */
  lemma {:induction false} PermsMeaning(s: string, acc: bv8)
    requires acc < 8
    ensures ParsePerms(s, acc) != None <==> forall i :: 0 <= i < |s| ==> PermChar(s[i])
    ensures var r := ParsePerms(s, acc); r != None ==>
              && r.value < 8
              && (r.value & READ != 0 <==> 'r' in s || acc & READ != 0)
              && (r.value & WRITE != 0 <==> 'w' in s || acc & WRITE != 0)
              && (r.value & EXECUTE != 0 <==> 'x' in s || acc & EXECUTE != 0)
    decreases |s|
  {
    if s == "" {
    } else {
      BitsAdded(acc);
      var c, t := s[0], s[1..];
      assert s == [c] + t && s[0] == c;
      assert forall i :: 0 <= i < |t| ==> t[i] == s[i + 1];
      assert forall i :: 0 < i < |s| ==> s[i] == t[i - 1];
      PermsMeaning(t, if c == 'r' then acc | READ else if c == 'w' then acc | WRITE else if c == 'x' then acc | EXECUTE else acc);
    }
  }

  function TagName(tag: Tag, long: bool): string {
    match tag
    case UserObj => if long then "user" else "u"
    case User => if long then "user" else "u"
    case GroupObj => if long then "group" else "g"
    case Group => if long then "group" else "g"
    case Mask => if long then "mask" else "m"
    case Other => if long then "other" else "o"
  }

  predicate Named(tag: Tag) { tag == User || tag == Group }

  function Names(tag: Tag, db: Database): map<string, nat> {
    if tag == User then db.users else db.groups
  }

  function ParseTag(s: string, hasQual: bool): Option<Tag> {
    if s == "u" || s == "user" then Some(if hasQual then User else UserObj)
    else if s == "g" || s == "group" then Some(if hasQual then Group else GroupObj)
    else if s == "o" || s == "other" then Some(Other)
    else if s == "m" || s == "mask" then Some(Mask)
    else None
  }

  /** The qualifier of an entry: a number for named users and groups, else 0. */
  function ParseQual(tag: Tag, s: string, db: Database): Option<nat> {
    if tag != User && tag != Group then Some(0)
    else
      var id := IdFromName(s, Names(tag, db));
      if id == BAD_ID then None else Some(id)
  }

  /** parseEntrySpec. Without permissions the field is left unset; here it is 0. */
  function ParseEntry(s: string, permsReqd: bool, db: Database): Option<Entry> {
    var colon1 := IndexOf(s, ':');
    if colon1 == -1 then None else ParseAfterTag(s[..colon1], s[colon1 + 1..], permsReqd, db)
  }

  /** The two sides of the first colon. */
  function ParseAfterTag(tagStr: string, rest: string, permsReqd: bool, db: Database): Option<Entry> {
    var colon2 := IndexOf(rest, ':');
    var hasQual := rest != "" && rest[0] != ':';
    var hasPerms := colon2 != -1 && rest[colon2 + 1..] != "";
    var tag := ParseTag(tagStr, hasQual);
    if hasPerms != permsReqd || tag == None then None
    else ParseRest(tag.value, if colon2 == -1 then rest else rest[..colon2], if hasPerms then rest[colon2 + 1..] else "", db)
  }

  /** Qualifier and permissions of an entry whose tag is known. */
  function ParseRest(tag: Tag, qualStr: string, permStr: string, db: Database): Option<Entry> {
    var qual := ParseQual(tag, qualStr, db);
    var perms := ParsePerms(permStr, 0);
    if qual == None || perms == None then None else Some(Entry(tag, qual.value, perms.value))
  }

  // ----- which texts are entries, and of what

  /** `s` is a tag, a colon, a qualifier, and nothing or a colon and more. */
  predicate Splits(s: string, tagStr: string, qual: string, rest: string) {
    && s == tagStr + [':'] + (qual + rest)
    && ':' !in tagStr && ':' !in qual && (rest == "" || rest[0] == ':')
  }

  /** A known tag, with a qualifier or without as it needs one; the qualifier of a
      mask or other entry is ignored. */
  predicate TagFits(tagStr: string, tag: Tag, qual: string) {
    && (match tag
        case UserObj => tagStr == "u" || tagStr == "user"
        case User => tagStr == "u" || tagStr == "user"
        case GroupObj => tagStr == "g" || tagStr == "group"
        case Group => tagStr == "g" || tagStr == "group"
        case Mask => tagStr == "m" || tagStr == "mask"
        case Other => tagStr == "o" || tagStr == "other")
    && (Named(tag) ==> qual != "") && (tag == UserObj || tag == GroupObj ==> qual == "")
  }

  predicate QualReads(tag: Tag, qual: string, id: nat, db: Database) {
    if Named(tag) then id == IdFromName(qual, Names(tag, db)) && id != BAD_ID else id == 0
  }

  predicate PermString(s: string) {
    forall i :: 0 <= i < |s| ==> PermChar(s[i])
  }

  /** Exactly the permissions that `s` mentions. */
  predicate Mentions(s: string, perms: bv8) {
    && perms < 8
    && (perms & READ != 0 <==> 'r' in s) && (perms & WRITE != 0 <==> 'w' in s) && (perms & EXECUTE != 0 <==> 'x' in s)
  }

  predicate PermsRead(rest: string, permsReqd: bool, perms: bv8) {
    if permsReqd then |rest| > 1 && PermString(rest[1..]) && Mentions(rest[1..], perms)
    else (rest == "" || rest == ":") && perms == 0
  }

  /** The text `s` stands for the entry `e`. */
  ghost predicate Denotes(s: string, permsReqd: bool, db: Database, e: Entry) {
    exists tagStr, qual, rest ::
      && Splits(s, tagStr, qual, rest)
      && TagFits(tagStr, e.tag, qual) && QualReads(e.tag, qual, e.qual, db) && PermsRead(rest, permsReqd, e.perms)
  }

  lemma {:induction false} SplitAt(s: string, c: char) returns (before: string, after: string)
    requires c in s
    ensures s == before + [c] + after && c !in before
  {
    if s[0] == c {
      before, after := "", s[1..];
      assert s == "" + [c] + after;
    } else {
      assert s == [s[0]] + s[1..];
      before, after := SplitAt(s[1..], c);
      before := [s[0]] + before;
    }
  }

  lemma {:induction false} SplitsAtColons(s: string) returns (tagStr: string, qual: string, rest: string)
    requires ':' in s
    ensures Splits(s, tagStr, qual, rest)
  {
    var after;
    tagStr, after := SplitAt(s, ':');
    if ':' in after {
      var more;
      qual, more := SplitAt(after, ':');
      rest := [':'] + more;
      assert qual + rest == after;
    } else {
      qual, rest := after, "";
      assert qual + rest == after;
    }
  }

  /** The tail after the first colon of a text that splits. */
  lemma {:induction false} SecondColon(qual: string, rest: string)
    requires ':' !in qual && (rest == "" || rest[0] == ':')
    ensures var after, colon2 := qual + rest, IndexOf(qual + rest, ':');
            && (after != "" && after[0] != ':' <==> qual != "")
            && (rest == "" ==> colon2 == -1 && after == qual)
            && (rest != "" ==> colon2 == |qual| && after[..colon2] == qual && after[colon2 + 1..] == rest[1..])
  {
    assert qual != "" ==> qual[0] in qual && (qual + rest)[0] == qual[0];
    if rest == "" {
      assert qual + rest == qual;
      IndexOfNone(qual, ':');
    } else {
      assert qual + rest == qual + [':'] + rest[1..];
      IndexOfAt(qual, ':', rest[1..]);
    }
  }

  lemma {:induction false} AfterTagParses(tagStr: string, qual: string, rest: string, permsReqd: bool, db: Database)
    requires ':' !in qual && (rest == "" || rest[0] == ':')
    ensures ParseAfterTag(tagStr, qual + rest, permsReqd, db) == ParseParts(tagStr, qual, rest, permsReqd, db)
  {
    SecondColon(qual, rest);
  }

  /** The parser in terms of the parts of the text. */
  function ParseParts(tagStr: string, qual: string, rest: string, permsReqd: bool, db: Database): Option<Entry> {
    var tag := ParseTag(tagStr, qual != "");
    if (|rest| > 1) != permsReqd || tag == None then None
    else ParseRest(tag.value, qual, if |rest| > 1 then rest[1..] else "", db)
  }

  lemma {:induction false} SplitsParses(s: string, tagStr: string, qual: string, rest: string, permsReqd: bool, db: Database)
    requires Splits(s, tagStr, qual, rest)
    ensures ParseEntry(s, permsReqd, db) == ParseParts(tagStr, qual, rest, permsReqd, db)
  {
    IndexOfAt(tagStr, ':', qual + rest);
    assert s[..|tagStr|] == tagStr && s[|tagStr| + 1..] == qual + rest;
    AfterTagParses(tagStr, qual, rest, permsReqd, db);
  }

  lemma {:induction false} TagParsesExactly(tagStr: string, qual: string, tag: Tag)
    ensures ParseTag(tagStr, qual != "") == Some(tag) <==> TagFits(tagStr, tag, qual)
  {
  }

  lemma {:induction false} BitsDetermine(p: bv8, q: bv8)
    requires p < 8 && q < 8
    requires (p & READ != 0 <==> q & READ != 0) && (p & WRITE != 0 <==> q & WRITE != 0) && (p & EXECUTE != 0 <==> q & EXECUTE != 0)
    ensures p == q
  {
  }

  lemma {:induction false} PermsParseExactly(s: string, perms: bv8)
    ensures ParsePerms(s, 0) == Some(perms) <==> PermString(s) && Mentions(s, perms)
  {
    PermsMeaning(s, 0);
    if PermString(s) && Mentions(s, perms) {
      BitsDetermine(perms, ParsePerms(s, 0).value);
    }
  }

  lemma {:induction false} PartsParseExactly(tagStr: string, qual: string, rest: string, permsReqd: bool, db: Database, e: Entry)
    requires rest == "" || rest[0] == ':'
    ensures ParseParts(tagStr, qual, rest, permsReqd, db) == Some(e) <==>
            TagFits(tagStr, e.tag, qual) && QualReads(e.tag, qual, e.qual, db) && PermsRead(rest, permsReqd, e.perms)
  {
    TagParsesExactly(tagStr, qual, e.tag);
    assert |rest| <= 1 ==> rest == "" || rest == ":";
    if |rest| > 1 {
      PermsParseExactly(rest[1..], e.perms);
    }
  }

  /** For arbitrary text: what the parser accepts, and with what result, is exactly
      what the text denotes. */
  lemma {:induction false} ParsesExactly(s: string, permsReqd: bool, db: Database, e: Entry)
    ensures ParseEntry(s, permsReqd, db) == Some(e) <==> Denotes(s, permsReqd, db, e)
  {
    if ':' in s {
      var tagStr, qual, rest := SplitsAtColons(s);
      SplitsParses(s, tagStr, qual, rest, permsReqd, db);
      PartsParseExactly(tagStr, qual, rest, permsReqd, db, e);
      forall t, q, r | Splits(s, t, q, r)
        ensures ParseEntry(s, permsReqd, db) == ParseParts(t, q, r, permsReqd, db)
      {
        SplitsParses(s, t, q, r, permsReqd, db);
      }
      forall t, q, r | Splits(s, t, q, r)
        ensures ParseParts(t, q, r, permsReqd, db) == Some(e) <==>
                TagFits(t, e.tag, q) && QualReads(e.tag, q, e.qual, db) && PermsRead(r, permsReqd, e.perms)
      {
        PartsParseExactly(t, q, r, permsReqd, db, e);
      }
    } else {
      IndexOfNone(s, ':');
    }
  }

  // ----- the parser as a program

  /** parseEntrySpec: succeeds exactly on the texts that denote an entry, with that
      entry. */
  method ParseEntrySpec(entryStr: string, permsReqd: bool, db: Database) returns (e: Option<Entry>)
    ensures e == ParseEntry(entryStr, permsReqd, db)
    ensures forall x :: e == Some(x) <==> Denotes(entryStr, permsReqd, db, x)
  {
    ParsesAsDenoted(entryStr, permsReqd, db);
    var colon1 := IndexOf(entryStr, ':');
    if colon1 == -1 {
      return None;
    }
    e := ReadAfterTag(entryStr[..colon1], entryStr[colon1 + 1..], permsReqd, db);
  }

  /** The part after the first colon has been found. */
  method ReadAfterTag(tagStr: string, rest: string, permsReqd: bool, db: Database) returns (e: Option<Entry>)
    ensures e == ParseAfterTag(tagStr, rest, permsReqd, db)
  {
    var hasQual := rest != "" && rest[0] != ':';
    var colon2 := IndexOf(rest, ':');
    var hasPerms := colon2 != -1 && rest[colon2 + 1..] != "";
    if hasPerms && !permsReqd {
      return None;
    }
    if !hasPerms && permsReqd {
      return None;
    }
    var tag := ParseTag(tagStr, hasQual);
    if tag == None {
      return None;
    }
    e := ReadRest(tag.value, if colon2 == -1 then rest else rest[..colon2], if hasPerms then rest[colon2 + 1..] else "", db);
  }

  lemma {:induction false} ParsesAsDenoted(s: string, permsReqd: bool, db: Database)
    ensures forall e :: ParseEntry(s, permsReqd, db) == Some(e) <==> Denotes(s, permsReqd, db, e)
  {
    forall e ensures ParseEntry(s, permsReqd, db) == Some(e) <==> Denotes(s, permsReqd, db, e) {
      ParsesExactly(s, permsReqd, db, e);
    }
  }

  /** The part of parseEntrySpec after the tag is known. */
  method ReadRest(tag: Tag, qualStr: string, permStr: string, db: Database) returns (e: Option<Entry>)
    ensures e == ParseRest(tag, qualStr, permStr, db)
  {
    var qual := ParseQual(tag, qualStr, db);
    if qual == None {
      return None;
    }
    var perms := ReadPerms(permStr);
    if perms == None {
      return None;
    }
    return Some(Entry(tag, qual.value, perms.value));
  }

  /** The loop over the permission characters. */
  method ReadPerms(p: string) returns (r: Option<bv8>)
    ensures r == ParsePerms(p, 0)
  {
    var perms: bv8 := 0;
    var i := 0;
    while i < |p|
      invariant i <= |p| && ParsePerms(p, 0) == ParsePerms(p[i..], perms)
    {
      if p[i] == 'r' {
        perms := perms | READ;
      } else if p[i] == 'w' {
        perms := perms | WRITE;
      } else if p[i] == 'x' {
        perms := perms | EXECUTE;
      } else if p[i] != '-' {
        return None;
      }
      i := i + 1;
    }
    return Some(perms);
  }

  // ----- printing and reading back

  function Rwx(p: bv8): string {
    [if p & READ != 0 then 'r' else '-', if p & WRITE != 0 then 'w' else '-', if p & EXECUTE != 0 then 'x' else '-']
  }

  lemma {:induction false} RwxParses(p: bv8)
    requires p < 8
    ensures ParsePerms(Rwx(p), 0) == Some(p)
  {
    var s := Rwx(p);
    assert s[1..] == [s[1], s[2]] && s[1..][1..] == [s[2]] && s[1..][1..][1..] == "";
    var a := if p & READ != 0 then READ else 0;
    var b := a | if p & WRITE != 0 then WRITE else 0;
    var c := b | if p & EXECUTE != 0 then EXECUTE else 0;
    assert c == p;
    assert ParsePerms(s, 0) == ParsePerms([s[1], s[2]], a);
    assert ParsePerms([s[1], s[2]], a) == ParsePerms([s[2]], b);
    assert ParsePerms([s[2]], b) == ParsePerms("", c);
  }

  function QualText(tag: Tag, qual: nat): string {
    if Named(tag) then Digits(qual) else ""
  }

  /** How an entry can be written: with the short or the long tag name, and as
      tag:qualifier:perms, tag:qualifier: or tag:qualifier. */
  datatype Form = WithPerms(long: bool) | Bare(long: bool, colon: bool)

  function AfterQual(perms: bv8, form: Form): string {
    match form
    case WithPerms(_) => ":" + Rwx(perms)
    case Bare(_, colon) => if colon then ":" else ""
  }

  /** An entry with `qual` written for its qualifier. */
  function Text(tag: Tag, qual: string, perms: bv8, form: Form): string {
    TagName(tag, form.long) + [':'] + (qual + AfterQual(perms, form))
  }

  function Print(e: Entry, form: Form): string {
    Text(e.tag, QualText(e.tag, e.qual), e.perms, form)
  }

  /** Something that can be written for a qualifier: nothing exactly for the tags
      that take none. */
  predicate QualFits(tag: Tag, qual: string) {
    ':' !in qual && (qual != "" <==> Named(tag))
  }

  /** An entry that has a text form: a numeric qualifier other than the sentinel for
      named users and groups, none for the other tags. */
  predicate WellFormed(e: Entry) {
    e.perms < 8 && if Named(e.tag) then e.qual < BAD_ID else e.qual == 0
  }

  /** An entry whose permissions, too, show in this form. */
  predicate Printable(e: Entry, form: Form) {
    WellFormed(e) && (form.WithPerms? || e.perms == 0)
  }

  lemma {:induction false} DigitsHaveNo(n: nat, c: char)
    requires !IsDigit(c)
    ensures c !in Digits(n)
  {
  }

  lemma {:induction false} TagNameParses(tag: Tag, long: bool)
    ensures ParseTag(TagName(tag, long), Named(tag)) == Some(tag)
  {
  }

  /** Reading an entry's text: it needs the setting of `permsReqd` that matches its
      form, and then its qualifier and permissions are read. */
  lemma {:induction false} TextParse(tag: Tag, qual: string, perms: bv8, form: Form, permsReqd: bool, db: Database)
    requires QualFits(tag, qual)
    ensures ParseEntry(Text(tag, qual, perms, form), permsReqd, db) ==
            if permsReqd != form.WithPerms? then None
            else ParseRest(tag, qual, if form.WithPerms? then Rwx(perms) else "", db)
  {
    var rest := AfterQual(perms, form);
    assert ':' !in TagName(tag, form.long);
    assert |rest| > 1 <==> form.WithPerms?;
    assert form.WithPerms? ==> rest[1..] == Rwx(perms);
    SplitsParses(Text(tag, qual, perms, form), TagName(tag, form.long), qual, rest, permsReqd, db);
    TagNameParses(tag, form.long);
  }

  /** Named users are looked up among the users and named groups among the groups: an
      entry with any name but a number. */
  lemma {:induction false} NameRoundTrip(tag: Tag, name: string, perms: bv8, long: bool, db: Database)
    requires Named(tag) && QualFits(tag, name) && !Numeric(name) && perms < 8
    ensures var names := if tag == User then db.users else db.groups;
            ParseEntry(Text(tag, name, perms, WithPerms(long)), true, db) ==
            if name in names && names[name] % ID_WORD != BAD_ID then Some(Entry(tag, names[name] % ID_WORD, perms)) else None
  {
    StrtolExactly(name);
    TextParse(tag, name, perms, WithPerms(long), true, db);
    RwxParses(perms);
  }

  lemma {:induction false} PrintFits(tag: Tag, qual: nat)
    ensures QualFits(tag, QualText(tag, qual))
  {
    DigitsHaveNo(qual, ':');
  }

  lemma {:induction false} RestRoundTrip(e: Entry, form: Form, db: Database)
    requires Printable(e, form)
    ensures ParseRest(e.tag, QualText(e.tag, e.qual), if form.WithPerms? then Rwx(e.perms) else "", db) == Some(e)
  {
    RwxParses(e.perms);
    if Named(e.tag) {
      NumeralParses(e.qual, Names(e.tag, db));
    }
  }

  /** What any text parses to is well formed, and has no permissions if none were
      to be given. */
  lemma {:induction false} ParsedIsWellFormed(s: string, permsReqd: bool, db: Database)
    ensures var e := ParseEntry(s, permsReqd, db); e != None ==> WellFormed(e.value) && (!permsReqd ==> e.value.perms == 0)
  {
    var e := ParseEntry(s, permsReqd, db);
    if e != None {
      ParsesExactly(s, permsReqd, db, e.value);
    }
  }

  /** Printing an entry, in any form, and parsing it under any setting returns the
      entry exactly if the form is the one called for and the entry shows in it. */
  lemma {:induction false} EntryRoundTrip(e: Entry, form: Form, permsReqd: bool, db: Database)
    ensures ParseEntry(Print(e, form), permsReqd, db) == Some(e) <==> permsReqd == form.WithPerms? && Printable(e, form)
    ensures permsReqd != form.WithPerms? ==> ParseEntry(Print(e, form), permsReqd, db) == None
  {
    PrintFits(e.tag, e.qual);
    TextParse(e.tag, QualText(e.tag, e.qual), e.perms, form, permsReqd, db);
    ParsedIsWellFormed(Print(e, form), permsReqd, db);
    if Printable(e, form) {
      RestRoundTrip(e, form, db);
    }
  }
}
