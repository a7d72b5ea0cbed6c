/** How canonical JSON orders: the text of arrays, objects, texts and two numbers, and where two texts first differ. */
module CanonicalText {
  import opened Keys
  import opened Pointers
  import opened Records
  import opened Text

  /* ---------- texts that differ at a character ---------- */

  /** The texts agree up to a character and the first has the smaller one there. */
  ghost predicate TextBelow(s: string, t: string)
  {
    exists i :: DiffersAt(s, t, i)
  }

  predicate DiffersAt(s: string, t: string, i: int)
  {
    0 <= i < |s| && i < |t| && s[..i] == t[..i] && s[i] < t[i]
  }

  lemma {:induction false} BelowMeansLeq(s: string, t: string)
    requires TextBelow(s, t)
    ensures Leq(s, t) && s != t
  {
    var i :| DiffersAt(s, t, i);
    if i > 0 {
      assert s[0] == s[..i][0] == t[..i][0] == t[0];
      assert s[1..][..i - 1] == s[..i][1..] && t[1..][..i - 1] == t[..i][1..];
      assert DiffersAt(s[1..], t[1..], i - 1);
      BelowMeansLeq(s[1..], t[1..]);
    }
  }

  /** Whatever stands before and after. */
  lemma BelowInContext(before: string, s: string, t: string, after: string, other: string)
    requires TextBelow(s, t)
    ensures TextBelow(before + s + after, before + t + other)
  {
    var i :| DiffersAt(s, t, i);
    var x, y, n := before + s + after, before + t + other, |before| + i;
    assert x[..n] == before + s[..i] && y[..n] == before + t[..i];
    assert DiffersAt(x, y, n);
  }

  lemma FirstCharacter(s: string, t: string)
    requires s != "" && t != "" && s[0] < t[0]
    ensures TextBelow(s, t)
  {
    assert DiffersAt(s, t, 0);
  }

  /* ---------- canonical JSON ---------- */

  function Quoted(escape: string -> string, s: string): string { "\"" + escape(s) + "\"" }

  function Listed(canon: Canon, items: seq<Json>): string
  {
    if items == [] then ""
    else if |items| == 1 then canon(items[0])
    else canon(items[0]) + "," + Listed(canon, items[1..])
  }

  function Member(canon: Canon, escape: string -> string, key: string, value: Json): string
  {
    Quoted(escape, key) + ":" + canon(value)
  }

  function Members(canon: Canon, escape: string -> string, fields: map<string, Json>, keys: seq<string>): string
    requires forall key :: key in keys ==> key in fields
  {
    if keys == [] then ""
    else if |keys| == 1 then Member(canon, escape, keys[0], fields[keys[0]])
    else Member(canon, escape, keys[0], fields[keys[0]]) + "," + Members(canon, escape, fields, keys[1..])
  }

  lemma SortedInside(fields: map<string, Json>)
    ensures forall key :: key in SortedKeys(fields.Keys) <==> key in fields
  {
    assert forall key :: key in SortedKeys(fields.Keys) <==> key in Elements(SortedKeys(fields.Keys));
  }

  function ObjectText(canon: Canon, escape: string -> string, fields: map<string, Json>): string
  {
    SortedInside(fields);
    "{" + Members(canon, escape, fields, SortedKeys(fields.Keys)) + "}"
  }

  /** What the proofs use of canonical JSON: lists in brackets, members by name in braces, quoted texts in which a space
      stands for itself, and numbers as written. */
  ghost predicate JsonText(canon: Canon, escape: string -> string)
  {
    && (forall items :: canon(Array(items)) == "[" + Listed(canon, items) + "]")
    && (forall fields :: canon(Object(fields)) == ObjectText(canon, escape, fields))
    && (forall s :: canon(Json.Text(s)) == Quoted(escape, s))
    && (forall s :: escape(s + " ") == escape(s) + " ")
    && canon(Number("1")) == "1" && canon(Number("10")) == "10"
  }

  function Joined(parts: seq<string>): string
  {
    if parts == [] then "" else if |parts| == 1 then parts[0] else parts[0] + "," + Joined(parts[1..])
  }

  /** An encoding of that kind. */
  function Marshalled(escape: string -> string, value: Json): string
  {
    match value
    case Null => "null"
    case Bool(b) => if b then "true" else "false"
    case Number(digits) => digits
    case Text(s) => Quoted(escape, s)
    case Array(items) => "[" + Joined(seq(|items|, i requires 0 <= i < |items| => Marshalled(escape, items[i]))) + "]"
    case Object(fields) =>
      var keys := SortedKeys(fields.Keys);
      SortedInside(fields);
      "{" + Joined(seq(|keys|, i requires 0 <= i < |keys| => Quoted(escape, keys[i]) + ":" + Marshalled(escape, fields[keys[i]]))) + "}"
  }

  lemma {:induction false} ListedIsJoined(canon: Canon, items: seq<Json>, parts: seq<string>)
    requires |parts| == |items| && forall i :: 0 <= i < |items| ==> parts[i] == canon(items[i])
    ensures Listed(canon, items) == Joined(parts)
  {
    if |items| > 1 { ListedIsJoined(canon, items[1..], parts[1..]); }
  }

  lemma {:induction false} MembersAreJoined(canon: Canon, escape: string -> string, fields: map<string, Json>, keys: seq<string>,
                                           parts: seq<string>)
    requires forall key :: key in keys ==> key in fields
    requires |parts| == |keys| && forall i :: 0 <= i < |keys| ==> parts[i] == Quoted(escape, keys[i]) + ":" + canon(fields[keys[i]])
    ensures Members(canon, escape, fields, keys) == Joined(parts)
  {
    if |keys| > 1 { MembersAreJoined(canon, escape, fields, keys[1..], parts[1..]); }
  }

  lemma MarshalledIsJsonText(escape: string -> string)
    requires forall s :: escape(s + " ") == escape(s) + " "
    ensures JsonText(value => Marshalled(escape, value), escape)
  {
    var canon: Canon := value => Marshalled(escape, value);
    hide Joined, Listed, Members, SortedKeys, Quoted;
    forall items
      ensures canon(Array(items)) == "[" + Listed(canon, items) + "]"
    {
      ListedIsJoined(canon, items, seq(|items|, i requires 0 <= i < |items| => Marshalled(escape, items[i])));
    }
    forall fields
      ensures canon(Object(fields)) == ObjectText(canon, escape, fields)
    {
      SortedInside(fields);
      var keys := SortedKeys(fields.Keys);
      MembersAreJoined(canon, escape, fields, keys,
        seq(|keys|, i requires 0 <= i < |keys| => Quoted(escape, keys[i]) + ":" + Marshalled(escape, fields[keys[i]])));
    }
  }

  lemma SpaceIsBelow(canon: Canon, escape: string -> string, s: string)
    requires JsonText(canon, escape)
    ensures TextBelow(canon(Json.Text(s + " ")), canon(Json.Text(s)))
  {
    var before := "\"" + escape(s);
    FirstCharacter(" \"", "\"");
    BelowInContext(before, " \"", "\"", "", "");
    assert canon(Json.Text(s + " ")) == "\"" + escape(s + " ") + "\"" == before + " \"" + "";
    assert canon(Json.Text(s)) == before + "\"" + "";
  }

  /* ---------- arrays that differ from a position on ---------- */

  /** The items before a position, each with its comma. */
  function Leading(canon: Canon, items: seq<Json>): string
  {
    if items == [] then "" else canon(items[0]) + "," + Leading(canon, items[1..])
  }

  function Trailing(canon: Canon, items: seq<Json>): string { if items == [] then "]" else "," + Listed(canon, items) + "]" }

  lemma Regroup(a: string, b: string, c: string)
    ensures a + b + c == a + (b + c)
  {}

  lemma {:induction false} ListedAt(canon: Canon, items: seq<Json>, i: nat)
    requires i < |items|
    ensures Listed(canon, items) + "]" == Leading(canon, items[..i]) + canon(items[i]) + Trailing(canon, items[i + 1..])
  {
    if i > 0 {
      var first := canon(items[0]) + ",";
      var before, tail := Leading(canon, items[1..][..i - 1]), canon(items[i]) + Trailing(canon, items[i + 1..]);
      ListedAt(canon, items[1..], i - 1);
      assert items[..i][1..] == items[1..][..i - 1] && items[1..][i..] == items[i + 1..];
      Regroup(first, Listed(canon, items[1..]), "]");
      Regroup(before, canon(items[i]), Trailing(canon, items[i + 1..]));
      Regroup(first, before, tail);
      Regroup(first + before, canon(items[i]), Trailing(canon, items[i + 1..]));
    } else if |items| > 1 {
      assert items[1..] == items[i + 1..];
    }
  }

  lemma ArrayAt(canon: Canon, escape: string -> string, items: seq<Json>, i: nat)
    requires JsonText(canon, escape) && i < |items|
    ensures canon(Array(items)) == "[" + Leading(canon, items[..i]) + canon(items[i]) + Trailing(canon, items[i + 1..])
  {
    ListedAt(canon, items, i);
    hide Listed, Leading, Trailing;
    var listed := Listed(canon, items);
    assert "[" + listed + "]" == "[" + (listed + "]");
    var before, rest := Leading(canon, items[..i]), canon(items[i]) + Trailing(canon, items[i + 1..]);
    var item, after := canon(items[i]), Trailing(canon, items[i + 1..]);
    assert "[" + (before + item + after) == "[" + before + item + after;
  }

  lemma ArrayBelow(canon: Canon, escape: string -> string, a: seq<Json>, b: seq<Json>, i: nat)
    requires JsonText(canon, escape) && i < |a| && i < |b| && a[..i] == b[..i]
    requires TextBelow(canon(a[i]), canon(b[i]))
    ensures TextBelow(canon(Array(a)), canon(Array(b)))
  {
    ArrayAt(canon, escape, a, i);
    ArrayAt(canon, escape, b, i);
    hide Leading, Trailing, TextBelow, JsonText;
    BelowInContext("[" + Leading(canon, a[..i]), canon(a[i]), canon(b[i]), Trailing(canon, a[i + 1..]), Trailing(canon, b[i + 1..]));
  }

  /** 1 and 10 are ordered by what follows them: a comma sorts before a digit, a bracket or a brace after it. */
  lemma OneBelowTen(before: string, after: string, other: string)
    requires after != "" && after[0] == ','
    ensures TextBelow(before + "1" + after, before + "10" + other)
  {
    var one, ten := "1" + after, "10" + other;
    assert one[..1] == ten[..1] == "1";
    assert DiffersAt(one, ten, 1);
    BelowInContext(before, one, ten, "", "");
    assert before + "1" + after == before + one + "" && before + "10" + other == before + ten + "";
  }

  lemma TenBelowOne(before: string, after: string, other: string)
    requires after != "" && (after[0] == ']' || after[0] == '}')
    ensures TextBelow(before + "10" + other, before + "1" + after)
  {
    var one, ten := "1" + after, "10" + other;
    assert one[..1] == ten[..1] == "1";
    assert DiffersAt(ten, one, 1);
    BelowInContext(before, ten, one, "", "");
    assert before + "1" + after == before + one + "" && before + "10" + other == before + ten + "";
  }

  lemma ArrayOneAndTen(canon: Canon, escape: string -> string, one: seq<Json>, ten: seq<Json>, i: nat)
    requires JsonText(canon, escape) && i < |one| == |ten| && one[..i] == ten[..i]
    requires one[i] == Number("1") && ten[i] == Number("10")
    ensures if i == |one| - 1 then TextBelow(canon(Array(ten)), canon(Array(one)))
            else TextBelow(canon(Array(one)), canon(Array(ten)))
  {
    ArrayAt(canon, escape, one, i);
    ArrayAt(canon, escape, ten, i);
    var before := "[" + Leading(canon, one[..i]);
    var after, other := Trailing(canon, one[i + 1..]), Trailing(canon, ten[i + 1..]);
    if i == |one| - 1 { TenBelowOne(before, after, other); } else { OneBelowTen(before, after, other); }
  }

  /* ---------- objects that differ in a member ---------- */

  /** The members before a position, each with its comma. */
  function LeadingMembers(canon: Canon, escape: string -> string, fields: map<string, Json>, keys: seq<string>): string
    requires forall key :: key in keys ==> key in fields
  {
    if keys == [] then ""
    else Member(canon, escape, keys[0], fields[keys[0]]) + "," + LeadingMembers(canon, escape, fields, keys[1..])
  }

  lemma {:induction false} SameLeading(canon: Canon, escape: string -> string, a: map<string, Json>, b: map<string, Json>,
                                       keys: seq<string>)
    requires forall key :: key in keys ==> key in a && key in b && a[key] == b[key]
    ensures LeadingMembers(canon, escape, a, keys) == LeadingMembers(canon, escape, b, keys)
  {
    if keys != [] { SameLeading(canon, escape, a, b, keys[1..]); }
  }

  lemma {:induction false} MembersAt(canon: Canon, escape: string -> string, fields: map<string, Json>, keys: seq<string>, i: nat)
    returns (after: string)
    requires i < |keys| && forall key :: key in keys ==> key in fields
    ensures Members(canon, escape, fields, keys) + "}" ==
            LeadingMembers(canon, escape, fields, keys[..i]) + (Quoted(escape, keys[i]) + ":" + (canon(fields[keys[i]]) + after))
    ensures after != "" && after[0] == if i == |keys| - 1 then '}' else ','
  {
    if i > 0 {
      hide Member;
      var first := Member(canon, escape, keys[0], fields[keys[0]]) + ",";
      after := MembersAt(canon, escape, fields, keys[1..], i - 1);
      assert keys[..i][1..] == keys[1..][..i - 1];
      Regroup(first, Members(canon, escape, fields, keys[1..]), "}");
      Regroup(first, LeadingMembers(canon, escape, fields, keys[1..][..i - 1]),
              Quoted(escape, keys[i]) + ":" + (canon(fields[keys[i]]) + after));
    } else {
      after := if |keys| > 1 then "," + Members(canon, escape, fields, keys[1..]) + "}" else "}";
      Regroup(Quoted(escape, keys[0]) + ":", canon(fields[keys[0]]), after);
      assert |keys| > 1 ==>
          Members(canon, escape, fields, keys) + "}" == Member(canon, escape, keys[0], fields[keys[0]]) + after;
    }
  }

  lemma LastIsGreatest(keys: set<string>, i: nat)
    requires i < |SortedKeys(keys)|
    ensures i == |SortedKeys(keys)| - 1 <==> forall key :: key in keys && key != SortedKeys(keys)[i] ==> !Leq(SortedKeys(keys)[i], key)
  {
    hide SortedKeys, Leq;
    var sorted := SortedKeys(keys);
    SortedIsAscending(keys);
    SortedIsDistinct(keys);
    assert sorted[|sorted| - 1] in Elements(sorted);
    forall key | key in keys && key != sorted[i] && Leq(sorted[i], key)
      ensures i < |sorted| - 1
    {
      assert key in Elements(sorted);
      var j :| 0 <= j < |sorted| && sorted[j] == key;
      if j < i { LeqAntisymmetric(sorted[i], sorted[j]); }
    }
  }

  lemma ObjectAt(canon: Canon, escape: string -> string, fields: map<string, Json>, i: nat) returns (after: string)
    requires JsonText(canon, escape) && i < |SortedKeys(fields.Keys)|
    ensures forall key :: key in SortedKeys(fields.Keys) ==> key in fields
    ensures var keys := SortedKeys(fields.Keys);
            canon(Object(fields)) == ("{" + LeadingMembers(canon, escape, fields, keys[..i]) + Quoted(escape, keys[i]) + ":")
                                     + canon(fields[keys[i]]) + after
    ensures after != "" && after[0] == if i == |SortedKeys(fields.Keys)| - 1 then '}' else ','
  {
    var keys := SortedKeys(fields.Keys);
    SortedInside(fields);
    after := MembersAt(canon, escape, fields, keys, i);
    var members, before := Members(canon, escape, fields, keys), LeadingMembers(canon, escape, fields, keys[..i]);
    var quoted, tail := Quoted(escape, keys[i]) + ":", canon(fields[keys[i]]) + after;
    assert canon(Object(fields)) == "{" + members + "}";
    hide Members, LeadingMembers, Quoted, SortedKeys, JsonText;
    Regroup("{", members, "}");
    Regroup("{", before, quoted + tail);
    Regroup("{" + before, quoted, tail);
    Regroup("{" + before, Quoted(escape, keys[i]), ":");
    Regroup("{" + before + Quoted(escape, keys[i]) + ":", canon(fields[keys[i]]), after);
  }

  /** Objects that differ in the one member, 1 here and 10 there. */
  lemma ObjectOneAndTen(canon: Canon, escape: string -> string, one: map<string, Json>, ten: map<string, Json>, x: string)
    requires JsonText(canon, escape) && one.Keys == ten.Keys && x in one
    requires one[x] == Number("1") && ten[x] == Number("10") && forall key :: key in one && key != x ==> one[key] == ten[key]
    ensures if forall key :: key in one && key != x ==> !Leq(x, key)
            then TextBelow(canon(Object(ten)), canon(Object(one)))
            else TextBelow(canon(Object(one)), canon(Object(ten)))
  {
    var keys := SortedKeys(one.Keys);
    assert x in Elements(keys);
    var i :| 0 <= i < |keys| && keys[i] == x;
    LastIsGreatest(one.Keys, i);
    var after := ObjectAt(canon, escape, one, i);
    var other := ObjectAt(canon, escape, ten, i);
    SortedIsDistinct(one.Keys);
    forall key | key in keys[..i]
      ensures key in one && key in ten && one[key] == ten[key]
    {
      var j :| 0 <= j < i && keys[..i][j] == key;
      assert keys[j] != keys[i];
    }
    SameLeading(canon, escape, one, ten, keys[..i]);
    hide LeadingMembers, SortedKeys, TextBelow, Quoted, Leq;
    var before := "{" + LeadingMembers(canon, escape, one, keys[..i]) + Quoted(escape, x) + ":";
    if after[0] == '}' { TenBelowOne(before, after, other); } else { OneBelowTen(before, after, other); }
  }

  /** Objects with one member. */
  lemma SingleMember(canon: Canon, escape: string -> string, key: string, value: Json)
    requires JsonText(canon, escape)
    ensures canon(Object(map[key := value])) == ("{" + Quoted(escape, key) + ":") + canon(value) + "}"
  {
    var fields := map[key := value];
    SortedInside(fields);
    var keys := SortedKeys(fields.Keys);
    assert Elements([key]) == fields.Keys;
    SortedIsUnique([key], fields.Keys);
    hide SortedKeys;
    assert canon(Object(fields)) == "{" + Member(canon, escape, key, value) + "}";
  }

  lemma MemberBelow(canon: Canon, escape: string -> string, key: string, a: Json, b: Json)
    requires JsonText(canon, escape) && TextBelow(canon(a), canon(b))
    ensures TextBelow(canon(Object(map[key := a])), canon(Object(map[key := b])))
  {
    SingleMember(canon, escape, key, a);
    SingleMember(canon, escape, key, b);
    hide TextBelow, JsonText, Quoted;
    BelowInContext("{" + Quoted(escape, key) + ":", canon(a), canon(b), "}", "}");
  }

  /** An object with a member sorts before an empty one. */
  lemma MemberIsBelowEmpty(canon: Canon, escape: string -> string, key: string, value: Json)
    requires JsonText(canon, escape)
    ensures TextBelow(canon(Object(map[key := value])), canon(Object(map[])))
  {
    SingleMember(canon, escape, key, value);
    var fields: map<string, Json> := map[];
    SortedInside(fields);
    assert SortedKeys(fields.Keys) == [];
    assert canon(Object(fields)) == "{}";
    var rest := Quoted(escape, key) + ":" + canon(value) + "}";
    FirstCharacter(rest, "}");
    BelowInContext("{", rest, "}", "", "");
    hide Quoted;
    Regroup("{", Quoted(escape, key), ":");
    Regroup("{", Quoted(escape, key) + ":", canon(value));
    Regroup("{", Quoted(escape, key) + ":" + canon(value), "}");
    assert "{" + rest + "" == "{" + rest && "{" + "}" + "" == "{}";
  }

  /** A text sorts before an array. */
  lemma TextIsBelowArray(canon: Canon, escape: string -> string, s: string, items: seq<Json>)
    requires JsonText(canon, escape)
    ensures TextBelow(canon(Json.Text(s)), canon(Array(items)))
  {
    FirstCharacter(canon(Json.Text(s)), canon(Array(items)));
  }
}
