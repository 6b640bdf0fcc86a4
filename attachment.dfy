/**
 * What the handlers do to the link tables: `Metadata.objects.get_or_create`
 * followed by `<row>.metadata.add(meta)` for every parsed pair, the
 * `metadata.clear()` the edit handlers run first, and `instructor.courses.set`.
 * The effects are functions on `Tables`; the class in database.dfy is proved
 * against them.
 */
module Attachment {
  import opened Schema
  import MetadataText

  type Pair = MetadataText.Pair

  /** `Metadata.objects.filter(key=p.key, value=p.value).exists()` */
  predicate HasRow(t: Tables, p: Pair) {
    exists id :: id in t.metadata && t.metadata[id] == p
  }

  /** The row holding `p` (the only one, when `UniqueRows` holds). */
  ghost function RowOf(t: Tables, p: Pair): (id: Id)
    requires HasRow(t, p)
    ensures id in t.metadata && t.metadata[id] == p
  {
    var id :| id in t.metadata && t.metadata[id] == p; id
  }

  /** Nothing but the metadata table, the metadata links and the counter differ. */
  predicate SameEntities(t: Tables, r: Tables) {
    r.students == t.students && r.courses == t.courses && r.instructors == t.instructors
    && r.enrollments == t.enrollments && r.teaches == t.teaches
  }

  /** Every row of `t` is still in `r`, holding the same pair. */
  predicate KeepsRows(t: Tables, r: Tables) {
    forall id :: id in t.metadata ==> id in r.metadata && r.metadata[id] == t.metadata[id]
  }

  /** The pairs linked to `o`. */
  function LinkedPairs(t: Tables, o: Owner): set<Pair> {
    set x | x in t.tags && x.0 == o && x.1 in t.metadata :: t.metadata[x.1]
  }

  /** `meta, _ = get_or_create(key=p.key, value=p.value); owner.metadata.add(meta)` */
  ghost function AttachOne(t: Tables, o: Owner, p: Pair): Tables {
    if HasRow(t, p) then t.(tags := t.tags + {(o, RowOf(t, p))})
    else t.(metadata := t.metadata[t.nextId := p], tags := t.tags + {(o, t.nextId)},
            nextId := t.nextId + 1)
  }

  /** The attaching loop over the parsed pairs, in order. */
  ghost function Attach(t: Tables, o: Owner, ps: seq<Pair>): Tables
    decreases |ps|
  {
    if ps == [] then t else AttachOne(Attach(t, o, ps[..|ps| - 1]), o, ps[|ps| - 1])
  }

  /** One more pair: the loop's step. */
  lemma AttachSnoc(t: Tables, o: Owner, ps: seq<Pair>, p: Pair)
    ensures Attach(t, o, ps + [p]) == AttachOne(Attach(t, o, ps), o, p)
  {
    assert (ps + [p])[..|ps|] == ps;
  }

  /** The loop's step over the stripped tokens: a token with ':' attaches its pair, any other is skipped. */
  lemma AttachTokenStep(t: Tables, o: Owner, tokens: seq<string>, i: nat)
    requires i < |tokens|
    ensures var done := Attach(t, o, MetadataText.KeepPairs(tokens[..i]));
            Attach(t, o, MetadataText.KeepPairs(tokens[..i + 1]))
            == if ':' in tokens[i] then AttachOne(done, o, MetadataText.PairOf(tokens[i])) else done
  {
    var ps := MetadataText.KeepPairs(tokens[..i]);
    assert tokens[..i + 1] == tokens[..i] + [tokens[i]];
    MetadataText.KeepPairsSnoc(tokens[..i], tokens[i]);
    if ':' in tokens[i] {
      AttachSnoc(t, o, ps, MetadataText.PairOf(tokens[i]));
    } else {
      assert ps + [] == ps;
    }
  }

  /** `owner.metadata.clear()`: the owner's links go, the Metadata rows stay. */
  function Untag(t: Tables, o: Owner): (r: Tables)
    ensures SameEntities(t, r) && r.metadata == t.metadata && r.nextId == t.nextId
    ensures forall x :: x in r.tags <==> x in t.tags && x.0 != o
  {
    t.(tags := set x | x in t.tags && x.0 != o)
  }

  /** Clear, then attach: what edit_instructor, edit_course and edit_enrollment do. */
  ghost function Replace(t: Tables, o: Owner, ps: seq<Pair>): Tables {
    Attach(Untag(t, o), o, ps)
  }

  /** The course ids linked to instructor `i`. */
  function CoursesOf(t: Tables, i: Id): set<Id> {
    set x | x in t.teaches && x.0 == i :: x.1
  }

  /** `instructor.courses.set(ids)`: afterwards the instructor teaches exactly `ids`. */
  function SetTeaching(t: Tables, i: Id, ids: set<Id>): (r: Tables)
    ensures r.students == t.students && r.courses == t.courses && r.instructors == t.instructors
    ensures r.enrollments == t.enrollments && r.metadata == t.metadata && r.tags == t.tags
    ensures r.nextId == t.nextId
  {
    t.(teaches := (set x | x in t.teaches && x.0 != i) + (set c | c in ids :: (i, c)))
  }

  // ---------------------------------------------------------------- one pair

  lemma AttachOneRows(t: Tables, o: Owner, p: Pair)
    requires UniqueRows(t.metadata) && RowsFresh(t)
    ensures var r := AttachOne(t, o, p);
            SameEntities(t, r) && UniqueRows(r.metadata) && RowsFresh(r) && KeepsRows(t, r)
            && t.nextId <= r.nextId
            && (forall id :: id in r.metadata && id !in t.metadata ==> t.nextId <= id && r.metadata[id] == p)
            && HasRow(r, p)
            && r.tags == t.tags + {(o, RowOf(r, p))}
  {
    var r := AttachOne(t, o, p);
    if !HasRow(t, p) {
      assert r.metadata[t.nextId] == p;
      assert HasRow(r, p);
      assert RowOf(r, p) == t.nextId;
    }
  }

  // ---------------------------------------------------------------- the loop

  /** The loop only adds Metadata rows, each new row holding one of the pairs. */
  lemma {:induction false} AttachRows(t: Tables, o: Owner, ps: seq<Pair>)
    requires UniqueRows(t.metadata) && RowsFresh(t)
    ensures var r := Attach(t, o, ps);
            SameEntities(t, r) && UniqueRows(r.metadata) && RowsFresh(r) && KeepsRows(t, r)
            && t.nextId <= r.nextId
            && (forall id :: id in r.metadata && id !in t.metadata ==> t.nextId <= id && r.metadata[id] in ps)
            && (forall p :: p in ps ==> HasRow(r, p))
  {
    if ps != [] {
      var init, last := ps[..|ps| - 1], ps[|ps| - 1];
      var m := Attach(t, o, init);
      AttachRows(t, o, init);
      AttachOneRows(m, o, last);
      assert ps == init + [last];
      var r := Attach(t, o, ps);
      forall p | p in ps ensures HasRow(r, p) {
        if p != last {
          assert p in init;
          var id :| id in m.metadata && m.metadata[id] == p;
          assert r.metadata[id] == p;
        }
      }
    }
  }

  /**
   * After the loop, the owner's links are the old ones plus one to the row
   * holding each parsed pair; no other link is added.
   */
  lemma {:induction false} AttachTags(t: Tables, o: Owner, ps: seq<Pair>)
    requires UniqueRows(t.metadata) && RowsFresh(t)
    requires forall x :: x in t.tags ==> x.1 in t.metadata
    ensures var r := Attach(t, o, ps);
            forall x :: x in r.tags <==>
                        x in t.tags || (x.0 == o && x.1 in r.metadata && r.metadata[x.1] in ps)
  {
    var r := Attach(t, o, ps);
    if ps != [] {
      var init, last := ps[..|ps| - 1], ps[|ps| - 1];
      var m := Attach(t, o, init);
      AttachTags(t, o, init);
      AttachRows(t, o, init);
      AttachOneRows(m, o, last);
      assert ps == init + [last];
      forall x ensures x in r.tags <==>
                       x in t.tags || (x.0 == o && x.1 in r.metadata && r.metadata[x.1] in ps)
      {
        TagStep(t, m, r, o, init, last, x);
      }
    }
  }

  /** One step of AttachTags, for one link. */
  lemma TagStep(t: Tables, m: Tables, r: Tables, o: Owner, init: seq<Pair>, last: Pair, x: (Owner, Id))
    requires UniqueRows(r.metadata) && KeepsRows(t, m) && KeepsRows(m, r)
    requires forall x :: x in t.tags ==> x.1 in t.metadata
    requires forall id :: id in r.metadata && id !in m.metadata ==> r.metadata[id] == last
    requires HasRow(r, last) && r.tags == m.tags + {(o, RowOf(r, last))}
    requires forall x :: x in m.tags <==>
                         x in t.tags || (x.0 == o && x.1 in m.metadata && m.metadata[x.1] in init)
    ensures x in r.tags <==>
            x in t.tags || (x.0 == o && x.1 in r.metadata && r.metadata[x.1] in init + [last])
  {
    var row := RowOf(r, last);
    if x.0 == o && x.1 in r.metadata && r.metadata[x.1] in init + [last] {
      if r.metadata[x.1] == last {
        assert x.1 == row;
      } else {
        assert x.1 in m.metadata;
      }
    }
  }

  /** The loop never touches links of another owner, and links `o` to every pair. */
  lemma AttachLinks(t: Tables, o: Owner, ps: seq<Pair>)
    requires UniqueRows(t.metadata) && RowsFresh(t)
    requires forall x :: x in t.tags ==> x.1 in t.metadata
    ensures var r := Attach(t, o, ps);
            LinkedPairs(r, o) == LinkedPairs(t, o) + (set p | p in ps)
            && (forall o' :: o' != o ==> LinkedPairs(r, o') == LinkedPairs(t, o'))
            && (forall x :: x in r.tags ==> x.1 in r.metadata)
  {
    var r := Attach(t, o, ps);
    AttachRows(t, o, ps);
    AttachTags(t, o, ps);
    forall p | p in ps ensures p in LinkedPairs(r, o) {
      var id :| id in r.metadata && r.metadata[id] == p;
      assert (o, id) in r.tags;
    }
    forall p | p in LinkedPairs(t, o) ensures p in LinkedPairs(r, o) {
      var x :| x in t.tags && x.0 == o && x.1 in t.metadata && t.metadata[x.1] == p;
      assert x in r.tags;
    }
    forall o' | o' != o ensures LinkedPairs(r, o') == LinkedPairs(t, o') {
      forall p | p in LinkedPairs(t, o') ensures p in LinkedPairs(r, o') {
        var x :| x in t.tags && x.0 == o' && x.1 in t.metadata && t.metadata[x.1] == p;
        assert x in r.tags;
      }
    }
  }

  /** The loop keeps every constraint, given that the owner exists. */
  lemma AttachConsistent(t: Tables, o: Owner, ps: seq<Pair>, isEmail: string -> bool, isDate: string -> bool)
    requires Consistent(t, isEmail, isDate) && OwnerExists(t, o)
    ensures Consistent(Attach(t, o, ps), isEmail, isDate)
  {
    var r := Attach(t, o, ps);
    AttachRows(t, o, ps);
    AttachTags(t, o, ps);
    assert OwnerExists(r, o);
    forall x | x in r.tags ensures OwnerExists(r, x.0) && x.1 in r.metadata {
      if x in t.tags {
        assert OwnerExists(t, x.0);
      }
    }
  }

  // ---------------------------------------------------------------- reuse

  /** Pairs that are already stored cost no new row: `get_or_create` finds them. */
  lemma {:induction false} AttachReuses(t: Tables, o: Owner, ps: seq<Pair>)
    requires forall p :: p in ps ==> HasRow(t, p)
    ensures Attach(t, o, ps).metadata == t.metadata
    ensures Attach(t, o, ps).nextId == t.nextId
  {
    if ps != [] {
      var init := ps[..|ps| - 1];
      forall p | p in init ensures HasRow(t, p) {
        assert p in ps;
      }
      AttachReuses(t, o, init);
      var m := Attach(t, o, init);
      assert ps[|ps| - 1] in ps;
      var id :| id in t.metadata && t.metadata[id] == ps[|ps| - 1];
      assert m.metadata[id] == ps[|ps| - 1];
    }
  }

  /** Attaching pairs that are all stored and linked already changes nothing. */
  lemma {:induction false} AttachPresent(t: Tables, o: Owner, ps: seq<Pair>)
    requires UniqueRows(t.metadata)
    requires forall p :: p in ps ==> HasRow(t, p) && (o, RowOf(t, p)) in t.tags
    ensures Attach(t, o, ps) == t
  {
    if ps != [] {
      var init := ps[..|ps| - 1];
      forall p | p in init ensures HasRow(t, p) && (o, RowOf(t, p)) in t.tags {
        assert p in ps;
      }
      AttachPresent(t, o, init);
      assert ps[|ps| - 1] in ps;
    }
  }

  /** Attaching the same pairs again leaves one link per pair: the loop is idempotent. */
  lemma AttachIdempotent(t: Tables, o: Owner, ps: seq<Pair>)
    requires UniqueRows(t.metadata) && RowsFresh(t)
    requires forall x :: x in t.tags ==> x.1 in t.metadata
    ensures Attach(Attach(t, o, ps), o, ps) == Attach(t, o, ps)
  {
    var r := Attach(t, o, ps);
    AttachRows(t, o, ps);
    AttachTags(t, o, ps);
    forall p | p in ps ensures HasRow(r, p) && (o, RowOf(r, p)) in r.tags {
      assert r.metadata[RowOf(r, p)] == p;
    }
    AttachPresent(r, o, ps);
  }

  /** Running the loop over `a + b` is running it over `a`, then over `b`. */
  lemma {:induction false} AttachAppend(t: Tables, o: Owner, a: seq<Pair>, b: seq<Pair>)
    ensures Attach(t, o, a + b) == Attach(Attach(t, o, a), o, b)
    decreases |b|
  {
    if b == [] {
      assert a + b == a;
    } else {
      var init := b[..|b| - 1];
      AttachAppend(t, o, a, init);
      assert (a + b)[..|a + b| - 1] == a + init;
      assert (a + b)[|a + b| - 1] == b[|b| - 1];
    }
  }

  /** A pair listed twice in one blob is linked once: `ps + ps` attaches what `ps` does. */
  lemma AttachTwice(t: Tables, o: Owner, ps: seq<Pair>)
    requires UniqueRows(t.metadata) && RowsFresh(t)
    requires forall x :: x in t.tags ==> x.1 in t.metadata
    ensures Attach(t, o, ps + ps) == Attach(t, o, ps)
  {
    AttachAppend(t, o, ps, ps);
    AttachIdempotent(t, o, ps);
  }

  // ---------------------------------------------------------------- replace

  /**
   * Clear-then-attach: afterwards the owner is linked to exactly the parsed
   * pairs, every other owner keeps its links, and every Metadata row that
   * existed is still there.
   */
  lemma ReplaceExact(t: Tables, o: Owner, ps: seq<Pair>)
    requires UniqueRows(t.metadata) && RowsFresh(t)
    requires forall x :: x in t.tags ==> x.1 in t.metadata
    ensures var r := Replace(t, o, ps);
            LinkedPairs(r, o) == (set p | p in ps)
            && (forall o' :: o' != o ==> LinkedPairs(r, o') == LinkedPairs(t, o'))
            && KeepsRows(t, r) && SameEntities(t, r)
  {
    var u := Untag(t, o);
    assert LinkedPairs(u, o) == {};
    forall o' | o' != o ensures LinkedPairs(u, o') == LinkedPairs(t, o') {
      forall p | p in LinkedPairs(t, o') ensures p in LinkedPairs(u, o') {
        var x :| x in t.tags && x.0 == o' && x.1 in t.metadata && t.metadata[x.1] == p;
        assert x in u.tags;
      }
    }
    AttachLinks(u, o, ps);
    AttachRows(u, o, ps);
    var r := Replace(t, o, ps);
    assert LinkedPairs(r, o) == (set p | p in ps);
    forall o' | o' != o ensures LinkedPairs(r, o') == LinkedPairs(t, o') {
      assert LinkedPairs(r, o') == LinkedPairs(u, o');
    }
  }

  /** Clearing an owner's links keeps every constraint. */
  lemma UntagConsistent(t: Tables, o: Owner, isEmail: string -> bool, isDate: string -> bool)
    requires Consistent(t, isEmail, isDate)
    ensures Consistent(Untag(t, o), isEmail, isDate)
  {
  }

  lemma ReplaceConsistent(t: Tables, o: Owner, ps: seq<Pair>, isEmail: string -> bool, isDate: string -> bool)
    requires Consistent(t, isEmail, isDate) && OwnerExists(t, o)
    ensures Consistent(Replace(t, o, ps), isEmail, isDate)
  {
    var u := Untag(t, o);
    UntagConsistent(t, o, isEmail, isDate);
    AttachConsistent(u, o, ps, isEmail, isDate);
  }

  // ---------------------------------------------------------------- courses.set

  /** After `courses.set(ids)` the instructor teaches exactly `ids`; other instructors are untouched. */
  lemma SetTeachingExact(t: Tables, i: Id, ids: set<Id>)
    ensures CoursesOf(SetTeaching(t, i, ids), i) == ids
    ensures forall j :: j != i ==> CoursesOf(SetTeaching(t, i, ids), j) == CoursesOf(t, j)
  {
    var r := SetTeaching(t, i, ids);
    forall c | c in ids ensures c in CoursesOf(r, i) {
      assert (i, c) in r.teaches;
    }
    forall j | j != i ensures CoursesOf(r, j) == CoursesOf(t, j) {
      forall c | c in CoursesOf(t, j) ensures c in CoursesOf(r, j) {
        assert (j, c) in t.teaches;
        assert (j, c) in r.teaches;
      }
    }
  }

  lemma SetTeachingConsistent(t: Tables, i: Id, ids: set<Id>, isEmail: string -> bool, isDate: string -> bool)
    requires Consistent(t, isEmail, isDate) && i in t.instructors && ids <= t.courses.Keys
    ensures Consistent(SetTeaching(t, i, ids), isEmail, isDate)
  {
  }
}
