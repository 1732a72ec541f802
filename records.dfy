/**
 * The records the dashboard works on: the raw record the user directory
 * returns, the local User shape, and the two pure computations on single
 * records — ingest (raw record to User) and the draft's field edit.
 */
module Records {

  datatype Option<T> = None | Some(value: T)

  /** A user id as the dashboard holds it: the empty draft carries the empty
      string, every stored user a number. Equality of Ids is JavaScript's
      strict equality on those values. */
  datatype Id = Blank | Num(n: int)

  /** The local record; the draft form has the same shape. */
  datatype User = User(id: Id, firstName: string, lastName: string, email: string, department: string)

  /** `company` as the directory sends it; `name` may be missing. */
  datatype Company = Company(name: Option<string>)

  /** A record as the directory sends it, already decoded from JSON. */
  datatype RawUser = RawUser(id: int, name: string, email: string, company: Option<Company>)

  /** The four inputs of the form, by their `name` attribute. */
  datatype Field = FirstName | LastName | Email | Department

  /** The draft the form starts with and is reset to after a save. */
  const EmptyDraft := User(Blank, "", "", "", "")

  const UnknownDepartment := "Unknown"

  // ---------------------------------------------------------------------
  // String splitting: `s.split(" ")` and its inverse `parts.join(" ")`
  // ---------------------------------------------------------------------

  /** The tokens of `s` between single spaces, as `s.split(" ")` gives them:
      never empty, and an empty token for each pair of adjacent spaces. */
  function Split(s: string): (parts: seq<string>)
    ensures |parts| >= 1
  {
    if |s| == 0 then [""]
    else
      var rest := Split(s[1..]);
      if s[0] == ' ' then [""] + rest
      else [[s[0]] + rest[0]] + rest[1..]
  }

  /** `parts.join(" ")`. */
  function Join(parts: seq<string>): (s: string)
    requires |parts| >= 1
  {
    if |parts| == 1 then parts[0] else parts[0] + " " + Join(parts[1..])
  }

  ghost predicate NoSpace(s: string) {
    ' ' !in s
  }

  /** A space-free string is a single token. */
  lemma {:induction false} SplitNoSpace(a: string)
    requires NoSpace(a)
    ensures Split(a) == [a]
  {
    if |a| > 0 {
      SplitNoSpace(a[1..]);
      assert a == [a[0]] + a[1..];
    }
  }

  /** The first space ends the first token; splitting goes on after it. */
  lemma {:induction false} SplitAtSpace(a: string, b: string)
    requires NoSpace(a)
    ensures Split(a + " " + b) == [a] + Split(b)
  {
    if |a| == 0 {
      assert a + " " + b == [' '] + b;
    } else {
      SplitAtSpace(a[1..], b);
      assert (a + " " + b)[1..] == a[1..] + " " + b;
      assert a == [a[0]] + a[1..];
    }
  }

  /** Every token is free of spaces, and joining the tokens gives back `s`. */
  lemma {:induction false} JoinSplit(s: string)
    ensures forall k :: 0 <= k < |Split(s)| ==> NoSpace(Split(s)[k])
    ensures Join(Split(s)) == s
  {
    if |s| > 0 {
      JoinSplit(s[1..]);
      var rest := Split(s[1..]);
      if s[0] != ' ' {
        if |rest| > 1 {
          assert rest == [rest[0]] + rest[1..];
          assert Join(rest) == rest[0] + " " + Join(rest[1..]);
          assert s == [s[0]] + s[1..];
        } else {
          assert s == [s[0]] + s[1..];
        }
      } else {
        assert s == " " + s[1..];
      }
    }
  }

  /** Splitting a join of space-free tokens gives the tokens back. */
  lemma {:induction false} SplitJoin(parts: seq<string>)
    requires |parts| >= 1
    requires forall k :: 0 <= k < |parts| ==> NoSpace(parts[k])
    ensures Split(Join(parts)) == parts
  {
    if |parts| == 1 {
      SplitNoSpace(parts[0]);
    } else {
      SplitJoin(parts[1..]);
      SplitAtSpace(parts[0], Join(parts[1..]));
    }
  }

  // ---------------------------------------------------------------------
  // Ingest
  // ---------------------------------------------------------------------

  /** JavaScript's `v || dflt` where `v` is a string that may be undefined:
      an undefined or empty `v` is falsy and gives `dflt`. */
  function Or(v: Option<string>, dflt: string): string {
    if v.Some? && v.value != "" then v.value else dflt
  }

  /** `parts[k]`, undefined past the end. */
  function At(parts: seq<string>, k: nat): Option<string> {
    if k < |parts| then Some(parts[k]) else None
  }

  /** The first token is a space-free prefix of `s` that ends at the first
      space or at the end of `s`. */
  lemma FirstTokenIsPrefix(s: string)
    ensures NoSpace(Split(s)[0])
    ensures |Split(s)[0]| <= |s| && s[..|Split(s)[0]|] == Split(s)[0]
    ensures |Split(s)[0]| == |s| || s[|Split(s)[0]|] == ' '
  {
    JoinSplit(s);
    var parts := Split(s);
    if |parts| > 1 {
      assert s == parts[0] + " " + Join(parts[1..]);
      assert s[..|parts[0]|] == parts[0];
    }
  }

  /** The tokens after the first are the tokens of the text after the first
      space; with no space there is a single token. */
  lemma SecondToken(s: string)
    ensures |Split(s)[0]| == |s| ==> |Split(s)| == 1
    ensures |Split(s)[0]| < |s| ==> Split(s)[1..] == Split(s[|Split(s)[0]| + 1..])
  {
    FirstTokenIsPrefix(s);
    JoinSplit(s);
    var parts := Split(s);
    var f := |parts[0]|;
    if |parts| > 1 {
      assert s == parts[0] + " " + Join(parts[1..]);
      assert s[f + 1..] == Join(parts[1..]);
      SplitAtSpace(parts[0], s[f + 1..]);
      assert parts[0] + " " + s[f + 1..] == s;
    } else {
      assert s == parts[0];
    }
  }

  /** `name.split(" ")[0]`: the text before the first space, or the whole
      name when it has none. */
  function FirstNameOf(name: string): (first: string)
    ensures NoSpace(first)
    ensures |first| <= |name| && name[..|first|] == first
    ensures |first| == |name| || name[|first|] == ' '
  {
    FirstTokenIsPrefix(name);
    Split(name)[0]
  }

  /** `name.split(" ")[1] || ""`: empty when the name has no space,
      otherwise the space-free run that starts right after the first space
      and ends at the next space or at the end of the name. */
  function LastNameOf(name: string): (last: string)
    ensures NoSpace(last)
    ensures |FirstNameOf(name)| == |name| ==> last == ""
    ensures |FirstNameOf(name)| < |name| ==>
              var start := |FirstNameOf(name)| + 1;
              && start + |last| <= |name|
              && name[start..start + |last|] == last
              && (start + |last| == |name| || name[start + |last|] == ' ')
  {
    FirstTokenIsPrefix(name);
    SecondToken(name);
    var parts := Split(name);
    if |parts[0]| < |name| then
      FirstTokenIsPrefix(name[|parts[0]| + 1..]);
      assert parts[1] == parts[1..][0];
      Or(At(parts, 1), "")
    else
      Or(At(parts, 1), "")
  }

  /** `company?.name || "Unknown"`: the company's name when it is present
      and not empty; "Unknown" for a missing company and for a missing or
      empty company name. */
  function DepartmentOf(company: Option<Company>): (department: string)
    ensures company.Some? && company.value.name.Some? && company.value.name.value != ""
            ==> department == company.value.name.value
    ensures company.None? || company.value.name.None? || company.value.name.value == ""
            ==> department == UnknownDepartment
  {
    Or(if company.Some? then company.value.name else None, UnknownDepartment)
  }

  /** One element of the ingest `data.map(...)`. */
  function IngestOne(raw: RawUser): (u: User)
    ensures u.id == Num(raw.id) && u.email == raw.email
  {
    User(Num(raw.id), FirstNameOf(raw.name), LastNameOf(raw.name), raw.email, DepartmentOf(raw.company))
  }

  /** The ingest `data.map(...)`: one User per raw record, in the same order. */
  function Ingest(data: seq<RawUser>): (users: seq<User>)
    ensures |users| == |data|
    ensures forall i :: 0 <= i < |data| ==> users[i] == IngestOne(data[i])
  {
    if |data| == 0 then [] else [IngestOne(data[0])] + Ingest(data[1..])
  }

  /** The first name is the whole name when the name has no space. */
  lemma NameWithoutSpace(name: string)
    requires NoSpace(name)
    ensures FirstNameOf(name) == name && LastNameOf(name) == ""
  {
    SplitNoSpace(name);
  }

  /** With a space, the first name is the text before the first space and
      the last name the text between the first and the second space (or the
      end of the name); whatever follows a second space is dropped. */
  lemma NameWithSpace(first: string, second: string, rest: string)
    requires NoSpace(first) && NoSpace(second)
    requires rest == "" || rest[0] == ' '
    ensures FirstNameOf(first + " " + second + rest) == first
    ensures LastNameOf(first + " " + second + rest) == second
  {
    SplitAtSpace(first, second + rest);
    assert first + " " + (second + rest) == first + " " + second + rest;
    if rest == "" {
      assert second + rest == second;
      SplitNoSpace(second);
    } else {
      SplitAtSpace(second, rest[1..]);
      assert second + " " + rest[1..] == second + rest;
    }
  }

  /** Ingest commutes with concatenation, so it keeps the directory's order. */
  lemma IngestAppend(a: seq<RawUser>, b: seq<RawUser>)
    ensures Ingest(a + b) == Ingest(a) + Ingest(b)
  {
    var l, r := Ingest(a + b), Ingest(a) + Ingest(b);
    forall i | 0 <= i < |l| ensures l[i] == r[i] {
      if i < |a| {
        assert (a + b)[i] == a[i];
      } else {
        assert (a + b)[i] == b[i - |a|];
      }
    }
  }

  /** The example record of the directory ingests as expected. */
  lemma IngestExample()
    ensures Ingest([RawUser(1, "Ada Lovelace", "a@x.com", None)])
            == [User(Num(1), "Ada", "Lovelace", "a@x.com", UnknownDepartment)]
  {
    NameWithSpace("Ada", "Lovelace", "");
    assert "Ada" + " " + "Lovelace" + "" == "Ada Lovelace";
  }

  /** A middle name becomes the last name, and a double space gives an
      empty last name. */
  lemma LastNameExamples()
    ensures LastNameOf("Ada King Lovelace") == "King"
    ensures LastNameOf("Ada  Lovelace") == ""
  {
    NameWithSpace("Ada", "King", " Lovelace");
    assert "Ada" + " " + "King" + " Lovelace" == "Ada King Lovelace";
    NameWithSpace("Ada", "", " Lovelace");
    assert "Ada" + " " + "" + " Lovelace" == "Ada  Lovelace";
  }

  // ---------------------------------------------------------------------
  // The draft's fields
  // ---------------------------------------------------------------------

  function Get(u: User, f: Field): string {
    match f
    case FirstName => u.firstName
    case LastName => u.lastName
    case Email => u.email
    case Department => u.department
  }

  /** `{ ...formData, [name]: value }`: the named field reads back as the
      new value, every other field and the id are unchanged. */
  function With(u: User, f: Field, v: string): (r: User)
    ensures Get(r, f) == v
    ensures forall g :: g != f ==> Get(r, g) == Get(u, g)
    ensures r.id == u.id
  {
    match f
    case FirstName => u.(firstName := v)
    case LastName => u.(lastName := v)
    case Email => u.(email := v)
    case Department => u.(department := v)
  }

  /** Repeating an edit changes nothing more. */
  lemma WithIdempotent(u: User, f: Field, v: string)
    ensures With(With(u, f, v), f, v) == With(u, f, v)
  {
  }

  /** Edits of different fields do not interfere. */
  lemma WithCommutes(u: User, f: Field, v: string, g: Field, w: string)
    requires f != g
    ensures With(With(u, f, v), g, w) == With(With(u, g, w), f, v)
  {
  }
}
