/**
 * Reading identifiers out of `document.cookie`, a `;`-separated list of
 * `name=value` entries (the Cookie header of section 4.2.1 of RFC 6265).
 * Entries are trimmed before they are examined.
 */
module Cookies {
  import opened Wrappers
  import opened JsString

  /** `pieces.map(c => c.trim())`. */
  function TrimAll(pieces: seq<string>): (es: seq<string>)
    ensures |es| == |pieces|
    ensures forall i :: 0 <= i < |es| ==> es[i] == Trim(pieces[i])
  {
    if pieces == [] then [] else [Trim(pieces[0])] + TrimAll(pieces[1..])
  }

  /**
   * The entries of a cookie string, trimmed: `cookie.split(";").map(c => c.trim())`.
   * There is always at least one, and more than one exactly when the string holds a `;`.
   */
  function Entries(cookie: string): (es: seq<string>)
    ensures |es| >= 1
    ensures |es| == 1 <==> ';' !in cookie
  {
    SplitPieces(cookie, ';');
    TrimAll(Split(cookie, ';'))
  }

  /** A cookie string without `;` and without white space at its ends is one entry. */
  lemma SingleEntry(cookie: string)
    requires ';' !in cookie
    requires cookie == [] || (!IsSpace(cookie[0]) && !IsSpace(cookie[|cookie| - 1]))
    ensures Entries(cookie) == [cookie]
  {
    SplitWithoutSeparator(cookie, ';');
    TrimUnchanged(cookie);
  }

  // ---------------------------------------------------------------------------
  // The pseudo user id, from the analytics client-id cookie `_ga`
  // ---------------------------------------------------------------------------

  const GaPrefix: string := "_ga="

  /** An entry the pseudo-id search accepts: it starts with `_ga=` and has no `_gat` in it. */
  predicate IsGaEntry(entry: string) {
    StartsWith(entry, GaPrefix) && !Contains(entry, "_gat")
  }

  /**
   * The pseudo id carried by a `_ga=` entry:
   * `entry.split("=")[1].split(".").slice(-2).join(".")`.
   */
  function PseudoIdOfEntry(entry: string): string
    requires StartsWith(entry, GaPrefix)
  {
    SplitAtFirst("_ga", entry[|GaPrefix|..], '=');
    assert entry == "_ga" + ['='] + entry[|GaPrefix|..];
    var value := Split(entry, '=')[1];
    Join(LastTwo(Split(value, '.')), '.')
  }

  /**
   * `getUserPseudoId()`: nothing for an empty cookie string; otherwise the pseudo id of
   * the first trimmed entry that is a `_ga=` entry, or nothing when there is none.
   */
  function UserPseudoId(cookie: string): (r: Option<string>)
    ensures r.None? <==> forall i :: 0 <= i < |Entries(cookie)| ==> !IsGaEntry(Entries(cookie)[i])
    ensures forall i :: IsFirst(Entries(cookie), IsGaEntry, i) ==> r == Some(PseudoIdOfEntry(Entries(cookie)[i]))
  {
    if cookie == "" then
      EmptyCookieHasNoGaEntry();
      None
    else
      var entries := Entries(cookie);
      match Find(entries, IsGaEntry)
      case None => None
      case Some(i) => Some(PseudoIdOfEntry(entries[i]))
  }

  /** The empty cookie string has one empty entry, which is no `_ga=` entry. */
  lemma EmptyCookieHasNoGaEntry()
    ensures Entries("") == [""]
    ensures !IsGaEntry("")
  {
    SingleEntry("");
  }

  /**
   * The `_gat` guard never rejects a cookie named `_gat...` (such an entry does not start
   * with `_ga=` anyway): an entry is a `_ga=` entry exactly when it starts with `_ga=`
   * and its value has no `_gat` in it.
   */
  lemma GatGuardOnlyInspectsValue(entry: string)
    ensures IsGaEntry(entry) <==> StartsWith(entry, GaPrefix) && !Contains(entry[|GaPrefix|..], "_gat")
    ensures StartsWith(entry, "_gat") ==> !IsGaEntry(entry)
  {
    if StartsWith(entry, GaPrefix) {
      if Contains(entry, "_gat") {
        GatInEntryIsInValue(entry);
      }
      if Contains(entry[|GaPrefix|..], "_gat") {
        GatInValueIsInEntry(entry);
      }
    }
  }

  /** A `_gat` in a `_ga=` entry lies wholly inside its value. */
  lemma GatInEntryIsInValue(entry: string)
    requires StartsWith(entry, GaPrefix) && Contains(entry, "_gat")
    ensures Contains(entry[|GaPrefix|..], "_gat")
  {
    var v := entry[|GaPrefix|..];
    ContainsOccurs(entry, "_gat");
    var i :| OccursAt(entry, "_gat", i);
    GaPrefixChars(entry);
    assert entry[i] == entry[i..i + 4][0] == '_';
    assert entry[i + 3] == entry[i..i + 4][3] == 't';
    assert i >= 4;
    assert v[i - 4..i] == entry[i..i + 4];
    assert OccursAt(v, "_gat", i - 4);
    ContainsOccurs(v, "_gat");
  }

  /** A `_gat` in the value of an entry is in the entry. */
  lemma GatInValueIsInEntry(entry: string)
    requires StartsWith(entry, GaPrefix) && Contains(entry[|GaPrefix|..], "_gat")
    ensures Contains(entry, "_gat")
  {
    var v := entry[|GaPrefix|..];
    ContainsOccurs(v, "_gat");
    var j :| OccursAt(v, "_gat", j);
    assert entry[j + 4..j + 8] == v[j..j + 4];
    assert OccursAt(entry, "_gat", j + 4);
    ContainsOccurs(entry, "_gat");
  }

  /** The characters of the `_ga=` prefix. */
  lemma GaPrefixChars(entry: string)
    requires StartsWith(entry, GaPrefix)
    ensures entry[0] == '_' && entry[1] == 'g' && entry[2] == 'a' && entry[3] == '='
  {
    assert entry[..4] == GaPrefix;
    assert entry[0] == entry[..4][0] && entry[1] == entry[..4][1];
    assert entry[2] == entry[..4][2] && entry[3] == entry[..4][3];
  }

  /**
   * The pseudo id of a standard client id `_ga=GA1.1.<a>.<b>` (any number of leading
   * dot-separated fields) is `<a>.<b>`, whatever follows a second `=`.
   */
  lemma {:induction false} PseudoIdOfClientId(fields: seq<string>, a: string, b: string, tail: string)
    requires forall i :: 0 <= i < |fields| ==> '.' !in fields[i] && '=' !in fields[i]
    requires '.' !in a && '=' !in a && '.' !in b && '=' !in b
    ensures PseudoIdOfEntry(GaPrefix + Join(fields + [a, b], '.')) == a + "." + b
    ensures PseudoIdOfEntry(GaPrefix + Join(fields + [a, b], '.') + "=" + tail) == a + "." + b
  {
    var pieces := fields + [a, b];
    assert forall i :: 0 <= i < |pieces| ==> '.' !in pieces[i] && '=' !in pieces[i];
    JoinHasNoSeparator(pieces, '.', '=');
    LastTwoOfJoin(fields, a, b);
    PseudoIdOfValue(Join(pieces, '.'), tail);
  }

  /** Keeping the last two `.`-pieces of a joined client id gives its last two fields. */
  lemma {:induction false} LastTwoOfJoin(fields: seq<string>, a: string, b: string)
    requires forall i :: 0 <= i < |fields| ==> '.' !in fields[i]
    requires '.' !in a && '.' !in b
    ensures Join(LastTwo(Split(Join(fields + [a, b], '.'), '.')), '.') == a + "." + b
  {
    var pieces := fields + [a, b];
    assert forall i :: 0 <= i < |pieces| ==> '.' !in pieces[i];
    SplitJoin(pieces, '.');
    assert LastTwo(pieces) == [a, b];
    assert Join([a, b], '.') == a + "." + b;
  }

  /**
   * The pseudo id is computed from the text between the first and the second `=`: a
   * value without `=` is all of it, and anything after a second `=` is ignored.
   */
  lemma {:induction false} PseudoIdOfValue(value: string, tail: string)
    requires '=' !in value
    ensures PseudoIdOfEntry(GaPrefix + value) == Join(LastTwo(Split(value, '.')), '.')
    ensures PseudoIdOfEntry(GaPrefix + value + "=" + tail) == Join(LastTwo(Split(value, '.')), '.')
  {
    var e1 := GaPrefix + value;
    SplitAtFirst("_ga", value, '=');
    assert e1 == "_ga" + ['='] + value;
    SplitWithoutSeparator(value, '=');
    assert Split(e1, '=')[1] == value;

    var e2 := GaPrefix + value + "=" + tail;
    SplitAtFirst(value, tail, '=');
    assert e2 == "_ga" + ['='] + (value + ['='] + tail);
    SplitAtFirst("_ga", value + ['='] + tail, '=');
    assert Split(e2, '=')[1] == value;
  }

  /** A `_ga=` value with no `.` in it is kept whole. */
  lemma PseudoIdOfShortValue(a: string)
    requires '.' !in a && '=' !in a
    ensures PseudoIdOfEntry(GaPrefix + a) == a
  {
    var e := GaPrefix + a;
    SplitAtFirst("_ga", a, '=');
    assert e == "_ga" + ['='] + a;
    SplitWithoutSeparator(a, '=');
    SplitWithoutSeparator(a, '.');
  }

  /** `sep` does not occur in a join of pieces free of `sep`, when `sep` is not the joiner. */
  lemma {:induction false} JoinHasNoSeparator(pieces: seq<string>, d: char, sep: char)
    requires |pieces| >= 1 && d != sep
    requires forall i :: 0 <= i < |pieces| ==> sep !in pieces[i]
    ensures sep !in Join(pieces, d)
  {
    if |pieces| > 1 {
      JoinHasNoSeparator(pieces[1..], d, sep);
    }
  }

  /** A cookie string that is one `_ga=` entry yields that entry's pseudo id. */
  lemma PseudoIdOfSoleEntry(cookie: string)
    requires Entries(cookie) == [cookie] && IsGaEntry(cookie)
    ensures UserPseudoId(cookie) == Some(PseudoIdOfEntry(cookie))
  {
    assert IsFirst(Entries(cookie), IsGaEntry, 0);
  }

  /** An entry without the letter `t` has no `_gat` in it. */
  lemma NoGatWithoutT(entry: string)
    requires 't' !in entry
    ensures !Contains(entry, "_gat")
  {
    if Contains(entry, "_gat") {
      ContainsOnlyCharsOf(entry, "_gat", 't');
    }
  }

  /** The client-id entry `_ga=GA1.1.123456789.987654321` carries the pseudo id `123456789.987654321`. */
  lemma ExampleClientIdEntry()
    ensures PseudoIdOfEntry("_ga=GA1.1.123456789.987654321") == "123456789.987654321"
  {
    ClientIdLiteral();
    PseudoIdOfClientId(["GA1", "1"], "123456789", "987654321", "");
    ClientIdPseudoIdLiteral();
  }

  /**
   * The example pseudo id, field by field. Literal comparisons are costly for the solver,
   * so each is proved in a lemma of its own rather than inside the example it serves.
   */
  lemma ClientIdPseudoIdLiteral()
    ensures "123456789" + "." + "987654321" == "123456789.987654321"
  {
  }

  /** The example entry, field by field. */
  lemma ClientIdLiteral()
    ensures "_ga=GA1.1.123456789.987654321" == GaPrefix + Join(["GA1", "1"] + ["123456789", "987654321"], '.')
  {
    ClientIdPrefixLiteral();
    ClientIdValueLiteral();
    JoinFour("GA1", "1", "123456789", "987654321", '.');
    assert ["GA1", "1"] + ["123456789", "987654321"] == ["GA1", "1", "123456789", "987654321"];
  }

  /**
   * The example entry is its prefix followed by its value. Kept apart from `ClientIdLiteral`
   * because comparing long string literals is costly for the solver.
   */
  lemma ClientIdPrefixLiteral()
    ensures "_ga=GA1.1.123456789.987654321" == GaPrefix + "GA1.1.123456789.987654321"
  {
  }

  /**
   * The example value, field by field. Kept apart from `ClientIdLiteral` for the same
   * reason as `ClientIdPrefixLiteral`.
   */
  lemma ClientIdValueLiteral()
    ensures "GA1.1.123456789.987654321" == "GA1" + "." + "1" + "." + "123456789" + "." + "987654321"
  {
  }

  /** Joining four pieces. */
  lemma JoinFour(w: string, x: string, y: string, z: string, d: char)
    ensures Join([w, x, y, z], d) == w + [d] + x + [d] + y + [d] + z
  {
    assert [w, x, y, z][1..] == [x, y, z];
    assert [x, y, z][1..] == [y, z];
    assert [y, z][1..] == [z];
    assert Join([y, z], d) == y + [d] + z;
    assert Join([x, y, z], d) == x + [d] + (y + [d] + z);
    assert w + [d] + (x + [d] + (y + [d] + z)) == w + [d] + x + [d] + y + [d] + z;
  }

  /**
   * Wherever the entry `_ga=GA1.1.123456789.987654321` stands in a cookie string, if no
   * earlier entry qualifies, the pseudo id is `123456789.987654321`.
   */
  lemma ExampleClientIdCookie(cookie: string, i: nat)
    requires i < |Entries(cookie)| && Entries(cookie)[i] == "_ga=GA1.1.123456789.987654321"
    requires forall k :: 0 <= k < i ==> !IsGaEntry(Entries(cookie)[k])
    ensures UserPseudoId(cookie) == Some("123456789.987654321")
  {
    ExampleClientIdQualifies();
    assert IsFirst(Entries(cookie), IsGaEntry, i);
    ExampleClientIdEntry();
  }

  /** The example entry starts with `_ga=` and, its value having no `t`, has no `_gat`: it qualifies. */
  lemma ExampleClientIdQualifies()
    ensures IsGaEntry("_ga=GA1.1.123456789.987654321")
  {
    var entry, value := "_ga=GA1.1.123456789.987654321", "GA1.1.123456789.987654321";
    ClientIdPrefixLiteral();
    assert entry[..|GaPrefix|] == GaPrefix && entry[|GaPrefix|..] == value;
    if Contains(entry, "_gat") {
      GatInEntryIsInValue(entry);
      ClientIdValueHasNoT();
      NoGatWithoutT(value);
    }
  }

  /** The example value has no `t`, proved on its own like `ClientIdPseudoIdLiteral`. */
  lemma ClientIdValueHasNoT()
    ensures 't' !in "GA1.1.123456789.987654321"
  {
  }

  lemma ExampleOnlyGatCookie()
    ensures UserPseudoId("_gat=1") == None
  {
    var cookie := "_gat=1";
    SingleEntry(cookie);
    assert !StartsWith(cookie, GaPrefix) by { assert cookie[3] != GaPrefix[3]; }
  }

  // ---------------------------------------------------------------------------
  // The forms vendor's tracking token, from the `hubspotutk` cookie
  // ---------------------------------------------------------------------------

  const UtkPrefix: string := "hubspotutk="

  /** The characters `/[^\w-]/g` does not remove: ASCII letters, digits, `_` and `-`. */
  predicate IsTokenChar(c: char) {
    ('A' <= c <= 'Z') || ('a' <= c <= 'z') || ('0' <= c <= '9') || c == '_' || c == '-'
  }

  /** `a` is obtained from `b` by deleting characters. */
  predicate IsSubsequence(a: string, b: string)
    decreases |b|
  {
    if a == [] then true
    else if b == [] then false
    else if a[0] == b[0] then IsSubsequence(a[1..], b[1..])
    else IsSubsequence(a, b[1..])
  }

  /**
   * `s.replace(/[^\w-]/g, "")`: the result is the subsequence of `s` made of exactly its
   * token characters, each as often as in `s`.
   */
  function KeepTokenChars(s: string): (r: string)
    ensures forall i :: 0 <= i < |r| ==> IsTokenChar(r[i])
  {
    if s == [] then []
    else if IsTokenChar(s[0]) then [s[0]] + KeepTokenChars(s[1..])
      else KeepTokenChars(s[1..])
  }

  /** What is kept is drawn from `s` in order. */
  lemma {:induction false} KeepTokenCharsSubsequence(s: string)
    ensures IsSubsequence(KeepTokenChars(s), s)
  {
    if s != [] {
      KeepTokenCharsSubsequence(s[1..]);
      var r := KeepTokenChars(s);
      assert r != [] ==> IsTokenChar(r[0]);
    }
  }

  /** Each token character is kept as often as it occurs; every other character is dropped. */
  lemma {:induction false} KeepTokenCharsCounts(s: string)
    ensures forall c :: IsTokenChar(c) ==> multiset(KeepTokenChars(s))[c] == multiset(s)[c]
    ensures forall c :: !IsTokenChar(c) ==> c !in KeepTokenChars(s)
  {
    if s != [] {
      KeepTokenCharsCounts(s[1..]);
      assert s == [s[0]] + s[1..];
    }
  }

  /** The token characters of a concatenation are those of each part. */
  lemma {:induction false} KeepTokenCharsAppend(a: string, b: string)
    ensures KeepTokenChars(a + b) == KeepTokenChars(a) + KeepTokenChars(b)
  {
    if a == [] {
      assert a + b == b;
    } else {
      assert (a + b)[0] == a[0];
      assert (a + b)[1..] == a[1..] + b;
      KeepTokenCharsAppend(a[1..], b);
    }
  }

  /** A string of token characters only is left as it is. */
  lemma {:induction false} KeepTokenCharsOfToken(s: string)
    requires forall i :: 0 <= i < |s| ==> IsTokenChar(s[i])
    ensures KeepTokenChars(s) == s
  {
    if s != [] {
      KeepTokenCharsOfToken(s[1..]);
    }
  }

  predicate IsUtkEntry(entry: string) {
    StartsWith(entry, UtkPrefix)
  }

  /**
   * `getHubspotUtkCookie()`: the value of the first trimmed entry starting with
   * `hubspotutk=`, reduced to its token characters, or nothing when there is no such entry.
   */
  function HubspotUtk(cookie: string): (r: Option<string>)
    ensures r.None? <==> forall i :: 0 <= i < |Entries(cookie)| ==> !IsUtkEntry(Entries(cookie)[i])
    ensures forall i :: IsFirst(Entries(cookie), IsUtkEntry, i) ==> r == Some(KeepTokenChars(Entries(cookie)[i][|UtkPrefix|..]))
    ensures r.Some? ==> forall i :: 0 <= i < |r.value| ==> IsTokenChar(r.value[i])
  {
    var entries := Entries(cookie);
    match Find(entries, IsUtkEntry)
    case None => None
    case Some(i) => Some(KeepTokenChars(entries[i][|UtkPrefix|..]))
  }

  /** The loop's view of the entries agrees with `Entries`: a first match at `i` is the first entry found. */
  lemma UtkFoundAt(cookie: string, i: nat)
    requires i < |Split(cookie, ';')| && IsUtkEntry(Trim(Split(cookie, ';')[i]))
    requires forall k :: 0 <= k < i ==> !IsUtkEntry(Trim(Split(cookie, ';')[k]))
    ensures HubspotUtk(cookie) == Some(KeepTokenChars(Trim(Split(cookie, ';')[i])[|UtkPrefix|..]))
  {
    assert IsFirst(Entries(cookie), IsUtkEntry, i);
  }

  /**
   * The search loop of `getHubspotUtkCookie`: walk the `;`-separated entries, trim each,
   * and return the cleaned value of the first one that starts with `hubspotutk=`.
   */
  method GetHubspotUtkCookie(cookie: string) returns (r: Option<string>)
    ensures r == HubspotUtk(cookie)
  {
    var cookies := Split(cookie, ';');
    var i := 0;
    while i < |cookies|
      invariant 0 <= i <= |cookies|
      invariant forall k :: 0 <= k < i ==> !IsUtkEntry(Trim(cookies[k]))
    {
      var entry := Trim(cookies[i]);
      if StartsWith(entry, UtkPrefix) {
        UtkFoundAt(cookie, i);
        return Some(KeepTokenChars(entry[|UtkPrefix|..]));
      }
      i := i + 1;
    }
    return None;
  }

  /** The tracking token is drawn from the raw cookie value: it is a subsequence of it. */
  lemma UtkIsSubsequenceOfValue(cookie: string, i: nat)
    requires IsFirst(Entries(cookie), IsUtkEntry, i)
    ensures HubspotUtk(cookie).Some?
    ensures IsSubsequence(HubspotUtk(cookie).value, Entries(cookie)[i][|UtkPrefix|..])
  {
    KeepTokenCharsSubsequence(Entries(cookie)[i][|UtkPrefix|..]);
  }

  /** A cookie string that is one `hubspotutk=` entry yields that entry's cleaned value. */
  lemma UtkOfSoleEntry(cookie: string)
    requires Entries(cookie) == [cookie] && IsUtkEntry(cookie)
    ensures HubspotUtk(cookie) == Some(KeepTokenChars(cookie[|UtkPrefix|..]))
  {
    assert IsFirst(Entries(cookie), IsUtkEntry, 0);
  }

  /** `hubspotutk=ab#c!123` gives the token `abc123`. */
  lemma ExampleUtkCookie()
    ensures HubspotUtk("hubspotutk=ab#c!123") == Some("abc123")
  {
    var cookie := "hubspotutk=ab#c!123";
    SingleEntry(cookie);
    UtkLiteral();
    UtkOfSoleEntry(cookie);
    UtkValueTokens();
  }

  /** The example cookie as prefix and value, proved on its own like `ClientIdPseudoIdLiteral`. */
  lemma UtkLiteral()
    ensures "hubspotutk=ab#c!123" == UtkPrefix + "ab#c!123"
  {
  }

  /** The example value loses its `#` and `!`. */
  lemma UtkValueTokens()
    ensures KeepTokenChars("ab#c!123") == "abc123"
  {
    assert "ab#c!123" == "ab" + ['#'] + ("c" + ['!'] + "123");
    KeepTokenCharsDropsOne("ab", '#', "c" + ['!'] + "123");
    KeepTokenCharsDropsOne("c", '!', "123");
    KeepTokenCharsOfToken("123");
    assert "ab" + ("c" + "123") == "abc123";
  }

  /** A non-token character after a token-only run is dropped, and the run kept. */
  lemma KeepTokenCharsDropsOne(a: string, x: char, rest: string)
    requires forall i :: 0 <= i < |a| ==> IsTokenChar(a[i])
    requires !IsTokenChar(x)
    ensures KeepTokenChars(a + [x] + rest) == a + KeepTokenChars(rest)
  {
    KeepTokenCharsAppend(a + [x], rest);
    KeepTokenCharsAppend(a, [x]);
    KeepTokenCharsOfToken(a);
    assert [x][1..] == [];
  }

  /** Without a `hubspotutk=` entry there is no tracking token. */
  lemma ExampleNoUtkCookie()
    ensures HubspotUtk("") == None
    ensures HubspotUtk("_ga=GA1.1.1.2") == None
  {
    SingleEntry("");
    var cookie := "_ga=GA1.1.1.2";
    SingleEntry(cookie);
    assert !IsUtkEntry(cookie) by { assert cookie[0] != UtkPrefix[0]; }
  }
}
