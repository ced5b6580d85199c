/** Canonical JSON: the encoder that writes numbers as reduced fractions and members in key order,
    the decoder of canonical text, and the laws that make hashing canonical bytes sound. */
module CanonicalJson {
  import opened Common
  import opened Numbers
  import Arithmetic

  /** A decoded JSON value.  A number keeps its text, as `json.Number` does. */
  datatype Json =
    | JNull
    | JBool(b: bool)
    | JNum(text: string)
    | JStr(s: string)
    | JArr(items: seq<Json>)
    | JObj(members: map<string, Json>)

  // ---- Normalisation ----

  /** The encoder fails on a number whose text does not normalise, wherever it stands. */
  ghost predicate Encodable(v: Json) {
    match v
    case JNum(text) => FractionString(text).Some?
    case JArr(items) => forall i :: 0 <= i < |items| ==> Encodable(items[i])
    case JObj(members) => forall k :: k in members ==> Encodable(members[k])
    case _ => true
  }

  function NormaliseText(s: string): string {
    var f := FractionString(s);
    if f.Some? then f.value else s
  }

  /** The tree the encoder writes: every number and numeric string becomes its fraction text. */
  ghost function Normalise(v: Json): Json {
    match v
    case JNum(text) => JStr(NormaliseText(text))
    case JStr(s) => JStr(NormaliseText(s))
    case JArr(items) => JArr(seq(|items|, i requires 0 <= i < |items| => Normalise(items[i])))
    case JObj(members) => JObj(map k | k in members :: Normalise(members[k]))
    case _ => v
  }

  ghost predicate NumberFree(v: Json) {
    match v
    case JNum(_) => false
    case JArr(items) => forall i :: 0 <= i < |items| ==> NumberFree(items[i])
    case JObj(members) => forall k :: k in members ==> NumberFree(members[k])
    case _ => true
  }

  lemma NormaliseTextTwice(s: string)
    ensures NormaliseText(NormaliseText(s)) == NormaliseText(s)
  {
    if FractionString(s).Some? {
      FractionTextNotNumeric(ParseJSONNumberToRat(TrimSpace(s)).value);
    }
  }

  lemma {:induction false} NormaliseTwice(v: Json)
    ensures NumberFree(Normalise(v)) && Encodable(Normalise(v))
    ensures Normalise(Normalise(v)) == Normalise(v)
  {
    match v
    case JNum(text) => NormaliseTextTwice(text);
    case JStr(s) => NormaliseTextTwice(s);
    case JArr(items) =>
      forall i | 0 <= i < |items|
        ensures NumberFree(Normalise(items[i])) && Encodable(Normalise(items[i]))
        ensures Normalise(Normalise(items[i])) == Normalise(items[i])
      {
        NormaliseTwice(items[i]);
      }
    case JObj(members) =>
      forall k | k in members
        ensures NumberFree(Normalise(members[k])) && Encodable(Normalise(members[k]))
        ensures Normalise(Normalise(members[k])) == Normalise(members[k])
      {
        NormaliseTwice(members[k]);
      }
    case _ =>
  }

  // ---- Keys in byte order ----

  predicate StringLess(a: string, b: string) {
    b != "" && (a == "" || a[0] < b[0] || (a[0] == b[0] && StringLess(a[1..], b[1..])))
  }

  lemma {:induction false} StringLessTotal(a: string, b: string)
    ensures StringLess(a, b) || a == b || StringLess(b, a)
    ensures !(StringLess(a, b) && StringLess(b, a)) && (a == b ==> !StringLess(a, b))
  {
    if a != "" && b != "" && a[0] == b[0] {
      StringLessTotal(a[1..], b[1..]);
      assert a == [a[0]] + a[1..] && b == [b[0]] + b[1..];
    }
  }

  lemma {:induction false} StringLessTransitive(a: string, b: string, c: string)
    requires StringLess(a, b) && StringLess(b, c)
    ensures StringLess(a, c)
  {
    if a != "" && a[0] == b[0] && b[0] == c[0] {
      StringLessTransitive(a[1..], b[1..], c[1..]);
    }
  }

  /** Code order, told without recursion: a proper prefix comes first, and otherwise the first character
      that differs decides. */
  ghost predicate InCodeOrder(a: string, b: string) {
    a < b || exists i :: DiffersFirst(a, b, i) && a[i] < b[i]
  }

  ghost predicate DiffersFirst(a: string, b: string, i: int) {
    0 <= i < |a| && i < |b| && a[..i] == b[..i] && a[i] != b[i]
  }

  /** The comparison is code order. */
  lemma {:induction false} StringLessIsCodeOrder(a: string, b: string)
    ensures StringLess(a, b) <==> InCodeOrder(a, b)
  {
    if a != "" && b != "" {
      if a[0] == b[0] {
        StringLessIsCodeOrder(a[1..], b[1..]);
        SameHeadCodeOrder(a, b);
      } else {
        assert DiffersFirst(a, b, 0);
        forall i
          ensures DiffersFirst(a, b, i) ==> i == 0
        {
          assert i > 0 && i <= |a| && i <= |b| ==> a[..i][0] == a[0] && b[..i][0] == b[0];
        }
      }
    }
  }

  lemma SameHeadCodeOrder(a: string, b: string)
    requires a != "" && b != "" && a[0] == b[0]
    ensures InCodeOrder(a, b) <==> InCodeOrder(a[1..], b[1..])
  {
    assert a == [a[0]] + a[1..] && b == [b[0]] + b[1..];
    forall i
      ensures DiffersFirst(a, b, i + 1) <==> DiffersFirst(a[1..], b[1..], i)
    {
      HeadDiffers(a, b, i);
    }
    if InCodeOrder(a, b) && !(a < b) {
      var i :| DiffersFirst(a, b, i) && a[i] < b[i];
      assert DiffersFirst(a, b, (i - 1) + 1);
      assert DiffersFirst(a[1..], b[1..], i - 1) && a[1..][i - 1] < b[1..][i - 1];
    }
    if InCodeOrder(a[1..], b[1..]) && !(a[1..] < b[1..]) {
      var i :| DiffersFirst(a[1..], b[1..], i) && a[1..][i] < b[1..][i];
      assert DiffersFirst(a, b, i + 1) && a[i + 1] < b[i + 1];
    }
    assert a < b <==> a[1..] < b[1..];
  }

  lemma HeadDiffers(a: string, b: string, i: int)
    requires a != "" && b != "" && a[0] == b[0]
    ensures DiffersFirst(a, b, i + 1) <==> DiffersFirst(a[1..], b[1..], i)
  {
    if 0 <= i < |a| - 1 && i < |b| - 1 {
      assert a[..i + 1] == [a[0]] + a[1..][..i] && b[..i + 1] == [b[0]] + b[1..][..i];
      assert a[1..][..i] == a[..i + 1][1..] && b[1..][..i] == b[..i + 1][1..];
    }
  }

  ghost predicate Ascending(s: seq<string>) {
    forall i, j :: 0 <= i < j < |s| ==> StringLess(s[i], s[j])
  }

  /** `s` lists the keys `ks` in ascending order. */
  ghost predicate SortedListing(s: seq<string>, ks: set<string>) {
    Ascending(s) && forall k :: k in s <==> k in ks
  }

  /** One step of sorting keys: place `x` in an ascending list. */
  function InsertSorted(x: string, s: seq<string>): seq<string> {
    if s == [] || StringLess(x, s[0]) then [x] + s else [s[0]] + InsertSorted(x, s[1..])
  }

  lemma {:induction false} InsertSortedKeepsListing(x: string, s: seq<string>, ks: set<string>)
    requires SortedListing(s, ks) && x !in ks
    ensures SortedListing(InsertSorted(x, s), ks + {x})
    ensures |InsertSorted(x, s)| == |s| + 1
  {
    if s != [] {
      StringLessTotal(x, s[0]);
      if StringLess(x, s[0]) {
        forall j | 0 <= j < |s| ensures StringLess(x, s[j]) {
          if j > 0 { StringLessTransitive(x, s[0], s[j]); }
        }
      } else {
        assert s[0] in ks;
        assert s[0] !in s[1..] by {
          if s[0] in s[1..] {
            var i :| 0 <= i < |s[1..]| && s[1..][i] == s[0];
            StringLessTotal(s[0], s[i + 1]);
          }
        }
        assert s == [s[0]] + s[1..];
        InsertSortedKeepsListing(x, s[1..], ks - {s[0]});
        var t := InsertSorted(x, s[1..]);
        forall j | 0 <= j < |t| ensures StringLess(s[0], t[j]) {
          assert t[j] in t;
          if t[j] != x {
            assert t[j] in s[1..];
          }
        }
      }
    }
  }

  lemma {:induction false} SortedListingUnique(s: seq<string>, t: seq<string>, ks: set<string>)
    requires SortedListing(s, ks) && SortedListing(t, ks)
    ensures s == t
  {
    if s == [] {
      NonEmptyHasMember(t);
    } else {
      assert s[0] in s;
      assert t != [];
      assert t[0] in t;
      HeadIsLeast(s, ks, t[0]);
      HeadIsLeast(t, ks, s[0]);
      StringLessTotal(s[0], t[0]);
      DropHead(s, ks);
      DropHead(t, ks);
      SortedListingUnique(s[1..], t[1..], ks - {s[0]});
      assert s == [s[0]] + s[1..] && t == [t[0]] + t[1..];
    }
  }

  lemma NonEmptyHasMember(s: seq<string>)
    ensures s != [] ==> exists k :: k in s
  {
    if s != [] {
      assert s[0] in s;
    }
  }

  lemma HeadIsLeast(s: seq<string>, ks: set<string>, x: string)
    requires SortedListing(s, ks) && x in ks
    ensures s != [] && (x == s[0] || StringLess(s[0], x))
  {
    var i :| 0 <= i < |s| && s[i] == x;
  }

  lemma DropHead(s: seq<string>, ks: set<string>)
    requires SortedListing(s, ks) && s != []
    ensures SortedListing(s[1..], ks - {s[0]})
  {
    forall k ensures k in s[1..] <==> k in ks - {s[0]} {
      assert s == [s[0]] + s[1..];
      if k in s[1..] {
        var i :| 0 <= i < |s[1..]| && s[1..][i] == k;
        StringLessTotal(s[0], s[i + 1]);
      }
    }
  }

  lemma {:induction false} SortedListingExists(ks: set<string>)
    ensures exists s :: SortedListing(s, ks)
  {
    if ks == {} {
      assert SortedListing([], ks);
    } else {
      var k :| k in ks;
      SortedListingExists(ks - {k});
      var s :| SortedListing(s, ks - {k});
      InsertSortedKeepsListing(k, s, ks - {k});
      assert ks - {k} + {k} == ks;
    }
  }

  /** The keys in the order the encoder writes them, whatever order iteration found them in. */
  ghost function SortedKeys(ks: set<string>): (s: seq<string>)
    ensures SortedListing(s, ks)
  {
    SortedListingExists(ks);
    var s :| SortedListing(s, ks);
    s
  }

  // ---- Printing a number-free tree ----

  function Escape(s: string): string {
    if s == "" then ""
    else (if s[0] == '"' || s[0] == '\\' then ['\\', s[0]] else [s[0]]) + Escape(s[1..])
  }

  function Quote(s: string): string {
    "\"" + Escape(s) + "\""
  }

  /** Pieces separated by commas. */
  function Join(pieces: seq<string>): string {
    if pieces == [] then ""
    else if |pieces| == 1 then pieces[0]
    else pieces[0] + "," + Join(pieces[1..])
  }

  /** The bytes of a tree in which numbers have already become strings. */
  ghost function Print(v: Json): string
    decreases v, 1
  {
    match v
    case JNull => "null"
    case JBool(b) => if b then "true" else "false"
    case JNum(text) => text
    case JStr(s) => Quote(s)
    case JArr(items) => "[" + Join(PrintItems(items)) + "]"
    case JObj(members) => "{" + Join(PrintMembers(v, SortedKeys(members.Keys))) + "}"
  }

  ghost function PrintItems(items: seq<Json>): (p: seq<string>)
    ensures |p| == |items|
    ensures forall i :: 0 <= i < |items| ==> p[i] == Print(items[i])
    decreases items, 0
  {
    if items == [] then [] else [Print(items[0])] + PrintItems(items[1..])
  }

  ghost function PrintMembers(v: Json, keys: seq<string>): (p: seq<string>)
    requires v.JObj? && forall k :: k in keys ==> k in v.members
    ensures |p| == |keys|
    ensures forall i :: 0 <= i < |keys| ==>
              keys[i] in keys && p[i] == Quote(keys[i]) + ":" + Print(v.members[keys[i]])
    decreases v, 0, |keys|
  {
    if keys == [] then []
    else
      assert keys[0] in keys;
      [Quote(keys[0]) + ":" + Print(v.members[keys[0]])] + PrintMembers(v, keys[1..])
  }

  /** The canonical bytes of a value, or nothing if the encoder fails on it. */
  ghost function Canonical(v: Json): Option<string> {
    if Encodable(v) then Some(Print(Normalise(v))) else None
  }

  // ---- Decoding canonical text ----

  /** The rest of a string literal after its opening quote: its text and what follows it. */
  function ParseQuoted(s: string): (r: Option<(string, string)>)
    ensures r.Some? ==> |r.value.1| < |s|
  {
    if s == "" then None
    else if s[0] == '"' then Some(("", s[1..]))
    else
      var escaped := s[0] == '\\';
      if escaped && (|s| < 2 || (s[1] != '"' && s[1] != '\\')) then None
      else
        var (c, rest) := if escaped then (s[1], s[2..]) else (s[0], s[1..]);
        match ParseQuoted(rest)
        case None => None
        case Some((text, after)) => Some(([c] + text, after))
  }

  predicate StartsWith(s: string, prefix: string) {
    |prefix| <= |s| && s[..|prefix|] == prefix
  }

  predicate FirstIs(s: string, c: char) {
    s != "" && s[0] == c
  }

  /** One value at the start of the text, and the text after it. */
  function ParseValue(s: string): (r: Option<(Json, string)>)
    ensures r.Some? ==> |r.value.1| < |s|
    decreases |s|, 0
  {
    if FirstIs(s, '"') then
      match ParseQuoted(s[1..])
      case None => None
      case Some((text, rest)) => Some((JStr(text), rest))
    else if FirstIs(s, '[') then
      if FirstIs(s[1..], ']') then Some((JArr([]), s[2..]))
      else
        match ParseItems(s[1..])
        case None => None
        case Some((items, rest)) => Some((JArr(items), rest))
    else if FirstIs(s, '{') then
      if FirstIs(s[1..], '}') then Some((JObj(map[]), s[2..]))
      else
        match ParseMembers(s[1..])
        case None => None
        case Some((members, rest)) => Some((JObj(members), rest))
    else ParseLiteral(s)
  }

  function ParseLiteral(s: string): (r: Option<(Json, string)>)
    ensures r.Some? ==> |r.value.1| < |s|
  {
    if StartsWith(s, "null") then Some((JNull, s[4..]))
    else if StartsWith(s, "true") then Some((JBool(true), s[4..]))
    else if StartsWith(s, "false") then Some((JBool(false), s[5..]))
    else None
  }

  /** Array elements up to and including the closing bracket. */
  function ParseItems(s: string): (r: Option<(seq<Json>, string)>)
    ensures r.Some? ==> |r.value.1| < |s|
    decreases |s|, 1
  {
    match ParseValue(s)
    case None => None
    case Some((v, rest)) =>
      if FirstIs(rest, ']') then Some(([v], rest[1..]))
      else if FirstIs(rest, ',') then
        match ParseItems(rest[1..])
        case None => None
        case Some((items, after)) => Some(([v] + items, after))
      else None
  }

  /** One object member. */
  function ParseMember(s: string): (r: Option<(string, Json, string)>)
    ensures r.Some? ==> |r.value.2| < |s|
    decreases |s|, 1
  {
    if !FirstIs(s, '"') then None
    else
      match ParseQuoted(s[1..])
      case None => None
      case Some((key, tail)) =>
        if !FirstIs(tail, ':') then None
        else
          match ParseValue(tail[1..])
          case None => None
          case Some((v, rest)) => Some((key, v, rest))
  }

  /** Object members up to and including the closing brace; of equal keys the last one counts. */
  function ParseMembers(s: string): (r: Option<(map<string, Json>, string)>)
    ensures r.Some? ==> |r.value.1| < |s|
    decreases |s|, 2
  {
    match ParseMember(s)
    case None => None
    case Some((key, v, rest)) =>
      if FirstIs(rest, '}') then Some((map[key := v], rest[1..]))
      else if FirstIs(rest, ',') then
        match ParseMembers(rest[1..])
        case None => None
        case Some((members, after)) => Some((map[key := v] + members, after))
      else None
  }

  /** `json.Unmarshal`: the whole text is one value. */
  function Unmarshal(s: string): Option<Json> {
    var r := ParseValue(s);
    if r.Some? && r.value.1 == "" then Some(r.value.0) else None
  }

  // ---- Round trip ----

  lemma {:induction false} ParseQuotedInverts(s: string, rest: string)
    ensures ParseQuoted(Escape(s) + "\"" + rest) == Some((s, rest))
  {
    var t := Escape(s) + "\"" + rest;
    if s == "" {
      assert t == "\"" + rest;
    } else {
      var u := Escape(s[1..]) + "\"" + rest;
      ParseQuotedInverts(s[1..], rest);
      if s[0] == '"' || s[0] == '\\' {
        assert t == ['\\', s[0]] + u;
        assert t[2..] == u;
      } else {
        assert t == [s[0]] + u;
        assert t[1..] == u;
      }
      assert s == [s[0]] + s[1..];
    }
  }

  /** `piece` is read back as `v`, whatever text follows it. */
  ghost predicate ReadsBack(piece: string, v: Json) {
    forall rest :: ParseValue(piece + rest) == Some((v, rest))
  }

  lemma {:induction false} ParseItemsInverts(pieces: seq<string>, items: seq<Json>, rest: string)
    requires |pieces| == |items| > 0
    requires forall i :: 0 <= i < |items| ==> ReadsBack(pieces[i], items[i])
    ensures ParseItems(Join(pieces) + "]" + rest) == Some((items, rest))
  {
    var tail := if |items| == 1 then rest else Join(pieces[1..]) + "]" + rest;
    var after := (if |items| == 1 then "]" else ",") + tail;
    JoinThen(pieces, "]", rest);
    assert ReadsBack(pieces[0], items[0]);
    assert after[1..] == tail;
    if |items| == 1 {
      assert items == [items[0]];
    } else {
      ParseItemsInverts(pieces[1..], items[1..], rest);
      assert items == [items[0]] + items[1..];
    }
  }

  /** The members of the listed keys. */
  ghost function Restrict(m: map<string, Json>, keys: seq<string>): map<string, Json>
    requires forall k :: k in keys ==> k in m
  {
    map k | k in keys :: m[k]
  }

  lemma ParseMemberInverts(key: string, v: Json, after: string)
    requires ReadsBack(Print(v), v)
    ensures ParseMember(Quote(key) + ":" + Print(v) + after) == Some((key, v, after))
  {
    var tail := ":" + (Print(v) + after);
    ParseQuotedInverts(key, tail);
    QuotedMember(Escape(key), Print(v), after);
    assert tail[1..] == Print(v) + after;
  }

  lemma QuotedMember(key: string, value: string, after: string)
    ensures var s := ("\"" + key + "\"") + ":" + value + after;
            s != "" && s[0] == '"' && s[1..] == key + "\"" + (":" + (value + after))
  {
  }

  lemma {:induction false} ParseMembersInverts(v: Json, keys: seq<string>, rest: string)
    requires v.JObj? && keys != [] && Ascending(keys)
    requires forall k :: k in keys ==> k in v.members && ReadsBack(Print(v.members[k]), v.members[k])
    ensures ParseMembers(Join(PrintMembers(v, keys)) + "}" + rest) == Some((Restrict(v.members, keys), rest))
  {
    var pieces := PrintMembers(v, keys);
    var key := keys[0];
    assert key in keys;
    var value := v.members[key];
    var tail := if |keys| == 1 then rest else Join(pieces[1..]) + "}" + rest;
    var after := (if |keys| == 1 then "}" else ",") + tail;
    assert Join(pieces) + "}" + rest == pieces[0] + after by {
      JoinThen(pieces, "}", rest);
    }
    assert after[1..] == tail;
    ParseMemberInverts(key, value, after);
    if |keys| == 1 {
      assert Restrict(v.members, keys) == map[key := value];
    } else {
      ParseMembersInverts(v, keys[1..], rest);
      RestrictHead(v, keys);
      ParseMembersStep(pieces[0] + after, key, value, after, Restrict(v.members, keys[1..]), rest);
    }
  }

  lemma ParseMembersStep(s: string, key: string, v: Json, after: string, members: map<string, Json>, rest: string)
    requires ParseMember(s) == Some((key, v, after)) && FirstIs(after, ',')
    requires ParseMembers(after[1..]) == Some((members, rest))
    ensures ParseMembers(s) == Some((map[key := v] + members, rest))
  {
  }

  lemma JoinThen(pieces: seq<string>, close: string, rest: string)
    requires pieces != []
    ensures Join(pieces) + close + rest
            == pieces[0] + if |pieces| == 1 then close + rest else "," + (Join(pieces[1..]) + close + rest)
  {
    if |pieces| > 1 {
      Reassociate(pieces[0], Join(pieces[1..]), close, rest);
    } else {
      assert pieces[0] + close + rest == pieces[0] + (close + rest);
    }
  }

  lemma Reassociate(a: string, b: string, c: string, d: string)
    ensures (a + "," + b) + c + d == a + ("," + (b + c + d))
  {
  }

  lemma RestrictHead(v: Json, keys: seq<string>)
    requires v.JObj? && keys != [] && Ascending(keys)
    requires forall k :: k in keys ==> k in v.members
    ensures keys[0] in keys
    ensures Restrict(v.members, keys) == map[keys[0] := v.members[keys[0]]] + Restrict(v.members, keys[1..])
  {
    assert keys == [keys[0]] + keys[1..];
    assert keys[0] !in keys[1..] by {
      if keys[0] in keys[1..] {
        var i :| 0 <= i < |keys[1..]| && keys[1..][i] == keys[0];
        StringLessTotal(keys[0], keys[i + 1]);
      }
    }
  }

  lemma JoinFirst(pieces: seq<string>)
    requires pieces != [] && pieces[0] != ""
    ensures Join(pieces) != "" && Join(pieces)[0] == pieces[0][0]
  {
  }

  /** Printed values are read back, whatever follows. */
  lemma {:induction false} PrintReadsBack(v: Json)
    requires NumberFree(v)
    ensures ReadsBack(Print(v), v)
    ensures Print(v) != "" && Print(v)[0] != ']'
  {
    match v
    case JArr(items) =>
      forall i | 0 <= i < |items|
        ensures ReadsBack(Print(items[i]), items[i]) && Print(items[i]) != "" && Print(items[i])[0] != ']'
      {
        PrintReadsBack(items[i]);
      }
      forall rest ensures ParseValue(Print(v) + rest) == Some((v, rest)) {
        ArrayReadsBack(items, rest);
      }
    case JObj(members) =>
      forall k | k in members ensures ReadsBack(Print(members[k]), members[k]) {
        PrintReadsBack(members[k]);
      }
      forall rest ensures ParseValue(Print(v) + rest) == Some((v, rest)) {
        ObjectReadsBack(v, rest);
      }
    case JNum(_) =>
    case _ =>
      forall rest ensures ParseValue(Print(v) + rest) == Some((v, rest)) {
        ScalarReadsBack(v, rest);
      }
  }

  lemma ScalarReadsBack(v: Json, rest: string)
    requires v.JNull? || v.JBool? || v.JStr?
    ensures ParseValue(Print(v) + rest) == Some((v, rest))
  {
    var s := Print(v) + rest;
    match v
    case JNull => assert s[..4] == "null" && s[4..] == rest;
    case JBool(b) =>
      if b {
        assert s[..4] == "true" && s[4..] == rest;
        assert s[..4][0] == 't';
      } else {
        assert s[..5] == "false" && s[5..] == rest;
        assert s[..4][0] == 'f';
      }
    case JStr(text) =>
      assert s == "\"" + (Escape(text) + "\"" + rest);
      assert s[1..] == Escape(text) + "\"" + rest;
      ParseQuotedInverts(text, rest);
    case _ =>
  }

  lemma ArrayReadsBack(items: seq<Json>, rest: string)
    requires forall i :: 0 <= i < |items| ==>
               ReadsBack(Print(items[i]), items[i]) && Print(items[i]) != "" && Print(items[i])[0] != ']'
    ensures ParseValue(Print(JArr(items)) + rest) == Some((JArr(items), rest))
  {
    var pieces := PrintItems(items);
    var s := Print(JArr(items)) + rest;
    if items == [] {
      assert s == "[]" + rest;
      assert s[2..] == rest;
    } else {
      var tail := Join(pieces) + "]" + rest;
      assert s == "[" + tail;
      assert s[1..] == tail;
      JoinFirst(pieces);
      assert s[1] != ']';
      ParseItemsInverts(pieces, items, rest);
    }
  }

  lemma EmptyObjectReadsBack(v: Json, rest: string)
    requires v.JObj? && SortedKeys(v.members.Keys) == []
    ensures ParseValue(Print(v) + rest) == Some((v, rest))
  {
    var s := Print(v) + rest;
    assert s == "{" + ("}" + rest) && s[1..] == "}" + rest && s[2..] == rest;
    NoMembers(v.members, SortedKeys(v.members.Keys));
  }

  lemma ObjectText(v: Json, rest: string)
    requires v.JObj?
    ensures Print(v) + rest == "{" + (Join(PrintMembers(v, SortedKeys(v.members.Keys))) + "}" + rest)
  {
    var body := Join(PrintMembers(v, SortedKeys(v.members.Keys)));
    assert "{" + body + "}" + rest == "{" + (body + "}" + rest);
  }

  lemma MembersStartQuoted(v: Json, keys: seq<string>)
    requires v.JObj? && keys != [] && forall k :: k in keys ==> k in v.members
    ensures Join(PrintMembers(v, keys)) != "" && Join(PrintMembers(v, keys))[0] == '"'
  {
    assert keys[0] in keys;
    JoinFirst(PrintMembers(v, keys));
  }

  lemma RestrictAll(m: map<string, Json>, keys: seq<string>)
    requires forall k :: k in keys <==> k in m
    ensures Restrict(m, keys) == m
  {
  }

  lemma OpenedObject(body: string, members: map<string, Json>, rest: string)
    requires ParseMembers(body) == Some((members, rest)) && body != "" && body[0] == '"'
    ensures ParseValue("{" + body) == Some((JObj(members), rest))
  {
    var s := "{" + body;
    assert s[1..] == body;
  }

  lemma ObjectReadsBack(v: Json, rest: string)
    requires v.JObj?
    requires forall k :: k in v.members ==> ReadsBack(Print(v.members[k]), v.members[k])
    ensures ParseValue(Print(v) + rest) == Some((v, rest))
  {
    var keys := SortedKeys(v.members.Keys);
    if keys == [] {
      EmptyObjectReadsBack(v, rest);
    } else {
      ObjectText(v, rest);
      MembersStartQuoted(v, keys);
      ParseMembersInverts(v, keys, rest);
      RestrictAll(v.members, keys);
      OpenedObject(Join(PrintMembers(v, keys)) + "}" + rest, v.members, rest);
    }
  }

  lemma NoMembers(m: map<string, Json>, keys: seq<string>)
    requires SortedListing(keys, m.Keys) && keys == []
    ensures m == map[]
  {
    assert forall k :: k in m.Keys ==> k in keys;
  }

  // ---- The laws of the canonical encoding ----

  /** Decoding canonical bytes gives the normalised tree, and encoding that gives the same bytes. */
  lemma CanonicalRoundTrip(v: Json)
    requires Canonical(v).Some?
    ensures Unmarshal(Canonical(v).value) == Some(Normalise(v))
    ensures Canonical(Normalise(v)) == Canonical(v)
  {
    NormaliseTwice(v);
    PrintReadsBack(Normalise(v));
    assert Print(Normalise(v)) + "" == Print(Normalise(v));
  }

  /** Nothing may follow the canonical bytes of a value. */
  lemma TrailingTextRefused(v: Json, rest: string)
    requires Canonical(v).Some? && rest != ""
    ensures Unmarshal(Canonical(v).value + rest).None?
  {
    NormaliseTwice(v);
    PrintReadsBack(Normalise(v));
    assert ReadsBack(Print(Normalise(v)), Normalise(v));
  }

  /** Two values get the same bytes exactly when they normalise to the same tree. */
  lemma CanonicalInjective(a: Json, b: Json)
    requires Encodable(a) && Encodable(b)
    ensures Canonical(a) == Canonical(b) <==> Normalise(a) == Normalise(b)
  {
    CanonicalRoundTrip(a);
    CanonicalRoundTrip(b);
  }

  // ---- What the encoding identifies ----

  predicate IsText(v: Json) {
    v.JNum? || v.JStr?
  }

  function TextOf(v: Json): string
    requires IsText(v)
  {
    if v.JNum? then v.text else v.s
  }

  /** Numbers taken as the code reads them, or as they are denoted. */
  datatype Reading = AsRead | AsDenoted

  ghost function NumberIn(s: string, r: Reading): real
    requires Numeric(s)
  {
    if r.AsRead? then ReadAs(Parts(s)) else Denotes(Parts(s))
  }

  /** `text` spells, in lowest terms, the number in the numeric text `s`. */
  ghost predicate SpellsNumber(text: string, s: string, r: Reading)
    requires Numeric(s)
  {
    exists q :: Arithmetic.LowestTerms(q) && Equals(q, NumberIn(s, r)) && text == FractionText(q)
  }

  /** Texts the encoding does not tell apart: spellings of one number, and a number with the string
      that spells it as a fraction.  Any other texts must be equal. */
  ghost predicate SameText(s: string, t: string, r: Reading) {
    if Numeric(s) && Numeric(t) then NumberIn(s, r) == NumberIn(t, r)
    else if Numeric(s) then SpellsNumber(t, s, r)
    else if Numeric(t) then SpellsNumber(s, t, r)
    else s == t
  }

  /** Equal up to the spelling of numbers; objects are compared by key. */
  ghost predicate SameDocument(a: Json, b: Json, r: Reading) {
    if IsText(a) && IsText(b) then SameText(TextOf(a), TextOf(b), r)
    else if a.JArr? && b.JArr? then
      |a.items| == |b.items| && forall i :: 0 <= i < |a.items| ==> SameDocument(a.items[i], b.items[i], r)
    else if a.JObj? && b.JObj? then
      a.members.Keys == b.members.Keys
      && forall k :: k in a.members ==> SameDocument(a.members[k], b.members[k], r)
    else a == b && !IsText(a)
  }

  /** The text is not a number with the one exponent whose negation wraps. */
  ghost predicate ExactText(s: string) {
    Numeric(s) ==> !ExponentWraps(Parts(s))
  }

  /** No text of the value is such a number. */
  ghost predicate Exact(v: Json) {
    match v
    case JNum(text) => ExactText(text)
    case JStr(s) => ExactText(s)
    case JArr(items) => forall i :: 0 <= i < |items| ==> Exact(items[i])
    case JObj(members) => forall k :: k in members ==> Exact(members[k])
    case _ => true
  }

  /** On exact texts, read numbers are denoted numbers. */
  lemma ExactTextsCompareNumbers(s: string, t: string)
    requires ExactText(s) && ExactText(t)
    ensures SameText(s, t, AsRead) <==> SameText(s, t, AsDenoted)
  {
    if Numeric(s) {
      RatIsRead(Parts(s));
    }
    if Numeric(t) {
      RatIsRead(Parts(t));
    }
  }

  lemma {:induction false} ExactDocumentsCompareNumbers(a: Json, b: Json)
    requires Exact(a) && Exact(b)
    ensures SameDocument(a, b, AsRead) <==> SameDocument(a, b, AsDenoted)
    decreases a
  {
    if IsText(a) && IsText(b) {
      ExactTextsCompareNumbers(TextOf(a), TextOf(b));
    } else if a.JArr? && b.JArr? && |a.items| == |b.items| {
      forall i | 0 <= i < |a.items|
        ensures SameDocument(a.items[i], b.items[i], AsRead) <==> SameDocument(a.items[i], b.items[i], AsDenoted)
      {
        ExactDocumentsCompareNumbers(a.items[i], b.items[i]);
      }
    } else if a.JObj? && b.JObj? && a.members.Keys == b.members.Keys {
      forall k | k in a.members
        ensures SameDocument(a.members[k], b.members[k], AsRead)
                <==> SameDocument(a.members[k], b.members[k], AsDenoted)
      {
        ExactDocumentsCompareNumbers(a.members[k], b.members[k]);
      }
    }
  }

  lemma NormaliseTextSpells(s: string, t: string)
    requires Numeric(s) && !Numeric(t)
    ensures NormaliseText(s) == NormaliseText(t) <==> SpellsNumber(t, s, AsRead)
  {
    var n := Parts(s);
    var q := RatOf(Decimal(n));
    FractionStringDecides(s);
    FractionStringDecides(t);
    RatIsRead(n);
    if SpellsNumber(t, s, AsRead) {
      var r :| Arithmetic.LowestTerms(r) && Equals(r, ReadAs(n)) && t == FractionText(r);
      EqualRealsSameRational(q, r, ReadAs(n), ReadAs(n));
      Arithmetic.LowestTermsUnique(q, r);
    }
  }

  lemma NormaliseTextIdentifies(s: string, t: string)
    ensures NormaliseText(s) == NormaliseText(t) <==> SameText(s, t, AsRead)
  {
    FractionStringDecides(s);
    FractionStringDecides(t);
    if Numeric(s) && Numeric(t) {
      SameFractionSameNumber(s, t);
    } else if Numeric(s) {
      NormaliseTextSpells(s, t);
    } else if Numeric(t) {
      NormaliseTextSpells(t, s);
    }
  }

  lemma {:induction false} NormaliseIdentifies(a: Json, b: Json)
    ensures Normalise(a) == Normalise(b) <==> SameDocument(a, b, AsRead)
    decreases a
  {
    if IsText(a) && IsText(b) {
      NormaliseTextIdentifies(TextOf(a), TextOf(b));
    } else if a.JArr? && b.JArr? {
      var x, y := Normalise(a).items, Normalise(b).items;
      assert |x| == |a.items| && |y| == |b.items|;
      if |a.items| == |b.items| {
        forall i | 0 <= i < |a.items| ensures x[i] == y[i] <==> SameDocument(a.items[i], b.items[i], AsRead) {
          NormaliseIdentifies(a.items[i], b.items[i]);
        }
        assert x == y <==> forall i :: 0 <= i < |a.items| ==> x[i] == y[i];
      }
    } else if a.JObj? && b.JObj? {
      var x, y := Normalise(a).members, Normalise(b).members;
      assert x.Keys == a.members.Keys && y.Keys == b.members.Keys;
      if a.members.Keys == b.members.Keys {
        forall k | k in a.members ensures x[k] == y[k] <==> SameDocument(a.members[k], b.members[k], AsRead) {
          NormaliseIdentifies(a.members[k], b.members[k]);
        }
        assert x == y <==> forall k :: k in x ==> x[k] == y[k];
      }
    }
  }

  /** Two values get the same canonical bytes exactly when they are the same document, up to the
      spelling of numbers and the order of members.  Numbers are compared as they are read, which is as
      they are denoted wherever no exponent wraps. */
  lemma CanonicalIdentifies(a: Json, b: Json)
    requires Encodable(a) && Encodable(b)
    ensures Canonical(a) == Canonical(b) <==> SameDocument(a, b, AsRead)
    ensures Exact(a) && Exact(b) ==> (Canonical(a) == Canonical(b) <==> SameDocument(a, b, AsDenoted))
  {
    CanonicalInjective(a, b);
    NormaliseIdentifies(a, b);
    if Exact(a) && Exact(b) {
      ExactDocumentsCompareNumbers(a, b);
    }
  }

  /** The string "3/2" and the number 1.5 are different values with the same canonical bytes. */
  lemma FractionStringCollides()
    ensures Canonical(JStr("3/2")) == Canonical(JNum("1.5")) && Canonical(JStr("3/2")).Some?
  {
    HalvesOfThree();
    ThreeHalvesText();
    FractionTextNotNumeric(Arithmetic.Rat(3, 2));
    CanonicalInjective(JStr("3/2"), JNum("1.5"));
  }

  lemma ThreeHalvesText()
    ensures FractionText(Arithmetic.Rat(3, 2)) == "3/2"
  {
    assert NatToString(3) == "3" && NatToString(2) == "2";
  }

  lemma HalvesOfThree()
    ensures FractionString("1.5") == Some("3/2")
  {
    ReadsOneAndAHalf();
    FifteenTenths();
    ThreeHalvesText();
  }

  lemma ReadsOneAndAHalf()
    ensures TrimSpace("1.5") == "1.5" && Scan("1.5").Some?
    ensures ReadNumber("1.5") == Some(Scientific(15, 1, 0))
  {
    var n := NumberText("", "1", Some("5"), None);
    assert Render(n) == "1.5";
    NotTrimmed("1.5");
    FifteenTenthsDigits(n);
    ScanComplete(n);
    ParseFindsParts(n);
  }

  lemma FifteenTenthsDigits(n: NumberText)
    requires n == NumberText("", "1", Some("5"), None)
    ensures WellFormed(n) && Decimal(n) == Scientific(15, 1, 0)
  {
    DigitsValueSplits("1", "5");
    DigitsValueOfOne('1');
    DigitsValueOfOne('5');
  }

  lemma FifteenTenths()
    ensures RatOf(Scientific(15, 1, 0)) == Arithmetic.Rat(3, 2)
  {
    assert Arithmetic.Gcd(15, 10) == Arithmetic.Gcd(10, 5) == Arithmetic.Gcd(5, 0) == 5;
  }

  // ---- EncodeCanonical and CanonicalizeJSON as they run ----

  /** A bytes.Buffer: it only grows. */
  class Buffer {
    var data: string

    constructor ()
      ensures data == ""
    {
      data := "";
    }

    method Write(s: string)
      modifies this
      ensures data == old(data) + s
    {
      data := data + s;
    }
  }

  lemma {:induction false} JoinSnoc(pieces: seq<string>, x: string)
    ensures Join(pieces + [x]) == if pieces == [] then x else Join(pieces) + "," + x
  {
    if |pieces| == 1 {
      assert (pieces + [x])[1..] == [x];
    } else if |pieces| > 1 {
      assert (pieces + [x])[1..] == pieces[1..] + [x];
      JoinSnoc(pieces[1..], x);
    }
  }

  /** Writing a separator and a piece extends what is joined by that piece. */
  lemma AppendPiece(start: string, pieces: seq<string>, i: nat)
    requires i < |pieces|
    ensures (start + Join(pieces[..i]) + if i > 0 then "," else "") + pieces[i] == start + Join(pieces[..i + 1])
  {
    assert pieces[..i + 1] == pieces[..i] + [pieces[i]];
    JoinSnoc(pieces[..i], pieces[i]);
  }

  /** The keys of an object, collected in an arbitrary order and sorted. */
  method CollectSortedKeys(members: map<string, Json>) returns (keys: seq<string>)
    ensures keys == SortedKeys(members.Keys)
    ensures forall k :: k in keys <==> k in members
    ensures forall i, j :: 0 <= i < j < |keys| ==> InCodeOrder(keys[i], keys[j])
  {
    keys := [];
    var todo := members.Keys;
    while todo != {}
      invariant todo <= members.Keys
      invariant SortedListing(keys, members.Keys - todo)
      decreases todo
    {
      var k :| k in todo;
      InsertSortedKeepsListing(k, keys, members.Keys - todo);
      keys := InsertSorted(k, keys);
      todo := todo - {k};
      assert members.Keys - todo == (members.Keys - (todo + {k})) + {k};
    }
    assert members.Keys - todo == members.Keys;
    SortedListingUnique(keys, SortedKeys(members.Keys), members.Keys);
    AscendingIsCodeOrder(keys);
  }

  lemma AscendingIsCodeOrder(s: seq<string>)
    requires Ascending(s)
    ensures forall i, j :: 0 <= i < j < |s| ==> InCodeOrder(s[i], s[j])
  {
    forall i, j | 0 <= i < j < |s|
      ensures InCodeOrder(s[i], s[j])
    {
      StringLessIsCodeOrder(s[i], s[j]);
    }
  }

  /** The bytes of arrays and objects around those of their parts: no spaces, and members in code order
      whatever order they are met in. */
  lemma CompoundBytes(a: string, b: string, v: Json, w: Json)
    ensures Print(JArr([])) == "[]" && Print(JObj(map[])) == "{}"
    ensures Print(JArr([v, w])) == "[" + (Print(v) + "," + Print(w)) + "]"
    ensures InCodeOrder(a, b) ==>
              Print(JObj(map[b := w, a := v]))
              == "{" + (Quote(a) + ":" + Print(v) + "," + (Quote(b) + ":" + Print(w))) + "}"
  {
    JoinTwo(PrintItems([v, w]), Print(v), Print(w));
    SortedListingUnique([], SortedKeys({}), {});
    assert JObj(map[]).members.Keys == {};
    if InCodeOrder(a, b) {
      TwoMembers(a, b, v, w);
    }
  }

  lemma TwoMembers(a: string, b: string, v: Json, w: Json)
    requires InCodeOrder(a, b)
    ensures Print(JObj(map[b := w, a := v]))
            == "{" + (Quote(a) + ":" + Print(v) + "," + (Quote(b) + ":" + Print(w))) + "}"
  {
    var o := JObj(map[b := w, a := v]);
    TwoKeys(a, b, o.members.Keys);
    var pieces := PrintMembers(o, [a, b]);
    JoinTwo(pieces, Quote(a) + ":" + Print(v), Quote(b) + ":" + Print(w));
  }

  lemma TwoKeys(a: string, b: string, ks: set<string>)
    requires InCodeOrder(a, b) && ks == {a, b}
    ensures SortedKeys(ks) == [a, b] && a != b
  {
    StringLessIsCodeOrder(a, b);
    StringLessTotal(a, b);
    SortedListingUnique([a, b], SortedKeys(ks), ks);
  }

  lemma JoinTwo(pieces: seq<string>, a: string, b: string)
    requires |pieces| == 2 && pieces[0] == a && pieces[1] == b
    ensures Join(pieces) == a + "," + b
  {
    assert pieces[1..] == [b];
  }

  /** The bytes of scalars: the literals, and between quotes a string's own text or the fraction that a
      number, or a string that reads as one, stands for. */
  lemma ScalarBytes(s: string)
    ensures Canonical(JNull) == Some("null")
    ensures Canonical(JBool(true)) == Some("true") && Canonical(JBool(false)) == Some("false")
    ensures Canonical(JNum(s)).Some? <==> Numeric(s)
    ensures Numeric(s) ==>
              Canonical(JNum(s)) == Canonical(JStr(s)) == Some(Quote(FractionText(RatOf(Decimal(Parts(s))))))
    ensures !Numeric(s) ==> Canonical(JStr(s)) == Some(Quote(s))
  {
    FractionStringDecides(s);
  }

  /** Quoting puts a backslash before every quote and every backslash and changes nothing else. */
  lemma {:induction false} EscapesMarks(a: string, c: char)
    ensures Escape(a + [c]) == Escape(a) + if c == '"' || c == '\\' then ['\\', c] else [c]
  {
    if a == "" {
      assert a + [c] == [c];
    } else {
      assert (a + [c])[1..] == a[1..] + [c];
      EscapesMarks(a[1..], c);
    }
  }

  /** EncodeCanonical: appends the canonical bytes, or reports failure part of the way through. */
  method EncodeCanonical(v: Json, b: Buffer) returns (ok: bool)
    modifies b
    ensures ok <==> Encodable(v)
    ensures ok ==> b.data == old(b.data) + Print(Normalise(v))
    decreases v, 1
  {
    ok := true;
    match v
    case JNull => b.Write("null");
    case JBool(x) => b.Write(if x then "true" else "false");
    case JNum(text) =>
      var f := FractionString(text);
      if f.None? {
        return false;
      }
      b.Write(Quote(f.value));
    case JStr(s) =>
      var f := FractionString(s);
      b.Write(Quote(if f.Some? then f.value else s));
    case JArr(items) => ok := EncodeArray(items, b);
    case JObj(_) => ok := EncodeObject(v, b);
  }

  /** What the encoder writes for a value it accepts. */
  ghost function WrittenText(v: Json): string {
    Print(Normalise(v))
  }

  method EncodeArray(items: seq<Json>, b: Buffer) returns (ok: bool)
    modifies b
    ensures ok <==> Encodable(JArr(items))
    ensures ok ==> b.data == old(b.data) + Print(Normalise(JArr(items)))
    decreases items, 1
  {
    b.Write("[");
    ghost var pieces := PrintItems(Normalise(JArr(items)).items);
    ok := EncodeItems(items, pieces, b);
    if ok {
      b.Write("]");
      Enclose(old(b.data), "[", Join(pieces), "]");
    }
  }

  method EncodeItems(items: seq<Json>, ghost pieces: seq<string>, b: Buffer) returns (ok: bool)
    requires |pieces| == |items| && forall i :: 0 <= i < |items| ==> pieces[i] == WrittenText(items[i])
    modifies b
    ensures ok <==> forall i :: 0 <= i < |items| ==> Encodable(items[i])
    ensures ok ==> b.data == old(b.data) + Join(pieces)
    decreases items, 0
  {
    ghost var start := b.data;
    for i := 0 to |items|
      invariant forall j :: 0 <= j < i ==> Encodable(items[j])
      invariant b.data == start + Join(pieces[..i])
    {
      Separate(i > 0, b);
      var done := EncodeCanonical(items[i], b);
      if !done {
        return false;
      }
      AppendPiece(start, pieces, i);
    }
    assert pieces[..|items|] == pieces;
    return true;
  }

  /** The comma before every piece but the first. */
  method Separate(comma: bool, b: Buffer)
    modifies b
    ensures b.data == old(b.data) + if comma then "," else ""
  {
    if comma {
      b.Write(",");
    } else {
      assert b.data == b.data + "";
    }
  }

  method EncodeObject(v: Json, b: Buffer) returns (ok: bool)
    requires v.JObj?
    modifies b
    ensures ok <==> Encodable(v)
    ensures ok ==> b.data == old(b.data) + Print(Normalise(v))
    decreases v, 0, 1
  {
    b.Write("{");
    var keys := CollectSortedKeys(v.members);
    ghost var w := Normalise(v);
    assert w.members.Keys == v.members.Keys;
    assert forall k :: k in v.members ==> k in keys;
    ghost var pieces := PrintMembers(w, keys);
    ok := EncodeMembers(v, keys, pieces, b);
    if ok {
      b.Write("}");
      Enclose(old(b.data), "{", Join(pieces), "}");
    }
  }

  method EncodeMembers(v: Json, keys: seq<string>, ghost pieces: seq<string>, b: Buffer) returns (ok: bool)
    requires v.JObj? && forall i :: 0 <= i < |keys| ==> keys[i] in v.members
    requires |pieces| == |keys|
    requires forall i :: 0 <= i < |keys| ==> pieces[i] == MemberText(keys[i], v.members[keys[i]])
    modifies b
    ensures ok <==> forall i :: 0 <= i < |keys| ==> Encodable(v.members[keys[i]])
    ensures ok ==> b.data == old(b.data) + Join(pieces)
    decreases v, 0, 0
  {
    ghost var start := b.data;
    for i := 0 to |keys|
      invariant forall j :: 0 <= j < i ==> Encodable(v.members[keys[j]])
      invariant b.data == start + Join(pieces[..i])
    {
      Separate(i > 0, b);
      var done := EncodeMember(keys[i], v.members[keys[i]], b);
      if !done {
        return false;
      }
      AppendPiece(start, pieces, i);
    }
    assert pieces[..|keys|] == pieces;
    return true;
  }

  ghost function MemberText(key: string, v: Json): string {
    Quote(key) + ":" + WrittenText(v)
  }

  method EncodeMember(key: string, v: Json, b: Buffer) returns (ok: bool)
    modifies b
    ensures ok <==> Encodable(v)
    ensures ok ==> b.data == old(b.data) + MemberText(key, v)
    decreases v, 2
  {
    b.Write(Quote(key));
    b.Write(":");
    ok := EncodeCanonical(v, b);
    Enclose(old(b.data), Quote(key), ":", WrittenText(v));
  }

  lemma Enclose(start: string, open: string, body: string, close: string)
    ensures start + open + body + close == start + (open + body + close)
  {
  }

  /** CanonicalizeJSON of a value's marshalled form. */
  method Canonicalize(v: Json) returns (bytes: Option<string>)
    ensures bytes == Canonical(v)
  {
    var b := new Buffer();
    var ok := EncodeCanonical(v, b);
    assert "" + Print(Normalise(v)) == Print(Normalise(v));
    return if ok then Some(b.data) else None;
  }
}
