/** The user records held by the table and the pure operations over the record list:
    the case-insensitive search filter, the look-up by id and the deletion by id. */
module Records {

  /** One user as the data source delivers it; every field value is a string. */
  datatype Record = Record(id: string, name: string, email: string, role: string)
  {
    /** The field values in the order `Object.values` lists them (the key order of the JSON). */
    function Values(): seq<string> { [id, name, email, role] }
  }

  /** The three fields that a table cell can edit; the id is shown but never edited. */
  datatype Field = Name | Email | Role

  function Get(r: Record, f: Field): string
  {
    match f
    case Name => r.name
    case Email => r.email
    case Role => r.role
  }

  /** `user[field] = value`: only the named field changes. */
  function Set(r: Record, f: Field, v: string): (r': Record)
    ensures Get(r', f) == v
    ensures r'.id == r.id
    ensures forall g :: g != f ==> Get(r', g) == Get(r, g)
  {
    match f
    case Name => r.(name := v)
    case Email => r.(email := v)
    case Role => r.(role := v)
  }

  lemma SetSameValue(r: Record, f: Field)
    ensures Set(r, f, Get(r, f)) == r
  {
  }

  // ---------------------------------------------------------------------------
  // Lower-casing and substring containment

  /** Lower-casing of one character, restricted to ASCII letters. */
  function LowerChar(c: char): char
  {
    if 'A' <= c <= 'Z' then (c as int - 'A' as int + 'a' as int) as char else c
  }

  /** `s.toLowerCase()` */
  function Lower(s: string): (r: string)
    ensures |r| == |s|
    ensures forall i :: 0 <= i < |s| ==> r[i] == LowerChar(s[i])
  {
    if s == [] then [] else [LowerChar(s[0])] + Lower(s[1..])
  }

  lemma LowerIdempotent(s: string)
    ensures Lower(Lower(s)) == Lower(s)
  {
  }

  /** `t` occurs in `s` starting at position `i`. */
  ghost predicate OccursAt(s: string, t: string, i: int)
  {
    0 <= i && i + |t| <= |s| && s[i..i + |t|] == t
  }

  lemma OccursShift(s: string, t: string, i: int)
    requires |s| > 0 && 0 <= i
    ensures OccursAt(s[1..], t, i) <==> OccursAt(s, t, i + 1)
  {
    if 0 <= i && i + |t| <= |s| - 1 {
      assert s[1..][i..i + |t|] == s[i + 1..i + 1 + |t|];
    }
  }

  /** `s.includes(t)`: some position of `s` starts an occurrence of `t`. */
  function Contains(s: string, t: string): (b: bool)
    ensures b <==> exists i :: OccursAt(s, t, i)
    decreases |s|
  {
    if |t| > |s| then false
    else if s[..|t|] == t then assert OccursAt(s, t, 0); true
    else
      var b := Contains(s[1..], t);
      assert b ==> exists i :: OccursAt(s, t, i) by {
        if b {
          var i :| OccursAt(s[1..], t, i);
          OccursShift(s, t, i);
        }
      }
      assert (exists i :: OccursAt(s, t, i)) ==> b by {
        if exists i :: OccursAt(s, t, i) {
          var i :| OccursAt(s, t, i);
          assert i != 0;
          OccursShift(s, t, i - 1);
        }
      }
      b
  }

  lemma ContainsEmpty(s: string)
    ensures Contains(s, "")
  {
    assert OccursAt(s, "", 0);
  }

  // ---------------------------------------------------------------------------
  // Order-preserving selection (`Array.prototype.filter`)

  /** `a` is obtained from `b` by dropping elements, keeping the order of the rest. */
  ghost predicate IsSubsequence<T>(a: seq<T>, b: seq<T>)
    decreases |b|
  {
    a == [] || (b != [] && ((a[0] == b[0] && IsSubsequence(a[1..], b[1..])) || IsSubsequence(a, b[1..])))
  }

  /** `data.filter(p)`: the records satisfying `p`, in their original order. */
  function Keep(data: seq<Record>, p: Record -> bool): (r: seq<Record>)
    ensures |r| <= |data|
    ensures forall x :: x in r <==> x in data && p(x)
    ensures IsSubsequence(r, data)
  {
    if data == [] then []
    else if p(data[0]) then [data[0]] + Keep(data[1..], p)
    else Keep(data[1..], p)
  }

  /** When every record satisfies the predicate, the filter returns its input unchanged. */
  lemma {:induction false} KeepAll(data: seq<Record>, p: Record -> bool)
    requires forall x :: x in data ==> p(x)
    ensures Keep(data, p) == data
  {
    if data != [] {
      KeepAll(data[1..], p);
    }
  }

  /** Filtering twice is filtering once with the conjunction. */
  lemma {:induction false} KeepKeep(data: seq<Record>, p: Record -> bool, q: Record -> bool, both: Record -> bool)
    requires forall x :: both(x) == (p(x) && q(x))
    ensures Keep(Keep(data, p), q) == Keep(data, both)
  {
    if data != [] {
      KeepKeep(data[1..], p, q, both);
    }
  }

  /** The filter distributes over concatenation, so it keeps the relative order of the records it keeps. */
  lemma {:induction false} KeepAppend(a: seq<Record>, b: seq<Record>, p: Record -> bool)
    ensures Keep(a + b, p) == Keep(a, p) + Keep(b, p)
  {
    if a == [] {
      assert a + b == b;
    } else {
      assert (a + b)[0] == a[0] && (a + b)[1..] == a[1..] + b;
      KeepAppend(a[1..], b, p);
    }
  }

  // ---------------------------------------------------------------------------
  // The search filter

  /** A record matches when some field value, lower-cased, contains the lower-cased term. */
  predicate Matches(r: Record, term: string): (b: bool)
    ensures b <==> Contains(Lower(r.id), Lower(term)) || Contains(Lower(r.name), Lower(term))
                   || Contains(Lower(r.email), Lower(term)) || Contains(Lower(r.role), Lower(term))
  {
    exists v :: v in r.Values() && Contains(Lower(v), Lower(term))
  }

  /** The records the table lists for a search term. */
  function Filter(data: seq<Record>, term: string): (r: seq<Record>)
    ensures |r| <= |data|
    ensures forall x :: x in r <==> x in data && Matches(x, term)
    ensures IsSubsequence(r, data)
  {
    Keep(data, x => Matches(x, term))
  }

  /** The search ignores the case of the term. */
  lemma MatchesIgnoresTermCase(r: Record, term: string)
    ensures Matches(r, term) <==> Matches(r, Lower(term))
  {
    LowerIdempotent(term);
  }

  /** An empty search term keeps every record, in order. */
  lemma FilterEmptyTerm(data: seq<Record>)
    ensures Filter(data, "") == data
  {
    forall x | x in data
      ensures Matches(x, "")
    {
      ContainsEmpty(Lower(x.id));
      assert x.id in x.Values();
    }
    KeepAll(data, x => Matches(x, ""));
  }

  // ---------------------------------------------------------------------------
  // Look-up and deletion by id

  /** `s.findIndex(p)`: the first position whose element satisfies `p`, or -1. */
  function FirstIndex<T>(s: seq<T>, p: T -> bool): (k: int)
    ensures -1 <= k < |s|
    ensures k == -1 <==> forall j :: 0 <= j < |s| ==> !p(s[j])
    ensures k != -1 ==> p(s[k]) && forall j :: 0 <= j < k ==> !p(s[j])
  {
    if s == [] then -1
    else if p(s[0]) then 0
    else
      var k := FirstIndex(s[1..], p);
      if k == -1 then -1 else k + 1
  }

  /** `data.findIndex(user => user.id === id)`: the first position holding the id, or -1. */
  function FindIndex(data: seq<Record>, id: string): (k: int)
    ensures -1 <= k < |data|
    ensures k == -1 <==> forall j :: 0 <= j < |data| ==> data[j].id != id
    ensures k != -1 ==> data[k].id == id && forall j :: 0 <= j < k ==> data[j].id != id
  {
    FirstIndex(data, (r: Record) => r.id == id)
  }

  /** The write of `finishEditing`: field `f` of the first record carrying the id becomes
      `v`; with no such record the list is unchanged. */
  function SetField(data: seq<Record>, id: string, f: Field, v: string): (r: seq<Record>)
    ensures |r| == |data|
    ensures FindIndex(data, id) == -1 ==> r == data
    ensures FindIndex(data, id) != -1 ==> r[FindIndex(data, id)] == Set(data[FindIndex(data, id)], f, v)
    ensures forall i :: 0 <= i < |data| && i != FindIndex(data, id) ==> r[i] == data[i]
    ensures forall i :: 0 <= i < |data| ==> r[i].id == data[i].id
  {
    var k := FindIndex(data, id);
    if k == -1 then data else data[k := Set(data[k], f, v)]
  }

  /** Writing back the value a field already holds changes no record. */
  lemma SetFieldOwnValue(data: seq<Record>, id: string, f: Field)
    requires FindIndex(data, id) != -1
    ensures SetField(data, id, f, Get(data[FindIndex(data, id)], f)) == data
  {
    var k := FindIndex(data, id);
    SetSameValue(data[k], f);
    assert data[k := data[k]] == data;
  }

  /** `data.filter(user => user.id !== id)` */
  function RemoveId(data: seq<Record>, id: string): (r: seq<Record>)
    ensures |r| <= |data|
    ensures forall x :: x in r <==> x in data && x.id != id
    ensures IsSubsequence(r, data)
  {
    Keep(data, (x: Record) => x.id != id)
  }

  /** Deleting an id that no record carries leaves the records unchanged. */
  lemma RemoveAbsentId(data: seq<Record>, id: string)
    requires forall x :: x in data ==> x.id != id
    ensures RemoveId(data, id) == data
  {
    KeepAll(data, (x: Record) => x.id != id);
  }

  /** Deleting the same id twice is deleting it once. */
  lemma RemoveIdIdempotent(data: seq<Record>, id: string)
    ensures RemoveId(RemoveId(data, id), id) == RemoveId(data, id)
  {
    RemoveAbsentId(RemoveId(data, id), id);
  }

  /** The ids deleted one after another, in the given order. */
  function RemoveIds(data: seq<Record>, ids: seq<string>): (r: seq<Record>)
    ensures |r| <= |data|
    ensures forall x :: x in r <==> x in data && x.id !in ids
  {
    if ids == [] then data
    else
      assert ids == ids[..|ids| - 1] + [ids[|ids| - 1]];
      RemoveId(RemoveIds(data, ids[..|ids| - 1]), ids[|ids| - 1])
  }

  /** Deleting a record and then searching lists the same records as searching and then
      deleting: a deletion can only shrink the listing. */
  lemma FilterAfterRemove(data: seq<Record>, id: string, term: string)
    ensures Filter(RemoveId(data, id), term) == RemoveId(Filter(data, term), id)
    ensures |Filter(RemoveId(data, id), term)| <= |Filter(data, term)|
  {
    var notId := (x: Record) => x.id != id;
    var matches := (x: Record) => Matches(x, term);
    var both := (x: Record) => x.id != id && Matches(x, term);
    KeepKeep(data, notId, matches, both);
    KeepKeep(data, matches, notId, both);
  }

  /** Deleting one more id after a prefix of the list. */
  lemma RemoveIdsStep(data: seq<Record>, ids: seq<string>, k: int)
    requires 0 <= k < |ids|
    ensures RemoveIds(data, ids[..k + 1]) == RemoveId(RemoveIds(data, ids[..k]), ids[k])
  {
    assert ids[..k + 1][..k] == ids[..k];
  }

  function NotIn(ids: seq<string>): Record -> bool
  {
    (x: Record) => x.id !in ids
  }

  lemma {:induction false} RemoveIdsIsKeep(data: seq<Record>, ids: seq<string>)
    ensures RemoveIds(data, ids) == Keep(data, NotIn(ids))
  {
    if ids == [] {
      KeepAll(data, NotIn(ids));
    } else {
      var front, last := ids[..|ids| - 1], ids[|ids| - 1];
      assert ids == front + [last];
      RemoveIdsIsKeep(data, front);
      KeepKeep(data, NotIn(front), (x: Record) => x.id != last, NotIn(ids));
    }
  }

  /** Deleting a list of ids removes exactly the records carrying one of them and keeps the others in order. */
  lemma RemoveIdsExactly(data: seq<Record>, ids: seq<string>)
    ensures forall x :: x in RemoveIds(data, ids) <==> x in data && x.id !in ids
    ensures IsSubsequence(RemoveIds(data, ids), data)
  {
    RemoveIdsIsKeep(data, ids);
  }

  /** Ids are unique in the record list. */
  ghost predicate UniqueIds(data: seq<Record>)
  {
    forall a, b :: 0 <= a < b < |data| ==> data[a].id != data[b].id
  }

  /** With unique ids, the look-up of a listed record's id finds that very record. */
  lemma FindIndexOfMember(data: seq<Record>, r: Record)
    requires UniqueIds(data) && r in data
    ensures FindIndex(data, r.id) != -1 && data[FindIndex(data, r.id)] == r
  {
    var t :| 0 <= t < |data| && data[t] == r;
    assert data[t].id == r.id;
  }
}
