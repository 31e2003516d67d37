/** A film's genre set: a TreeSet ordered by genre id, modelled as a sequence
    of genres whose ids strictly ascend. */
module GenreSet {
  import opened Constants

  /** Ids strictly ascend, so each id occurs once. */
  predicate StrictlyAscending(s: seq<Genre>) {
    forall i, j :: 0 <= i < j < |s| ==> s[i].id < s[j].id
  }

  function Ids(s: seq<Genre>): set<int> {
    set g | g in s :: g.id
  }

  /** The ids of a concatenation are the ids of its parts. */
  lemma IdsConcat(a: seq<Genre>, b: seq<Genre>)
    ensures Ids(a + b) == Ids(a) + Ids(b)
  {
    assert forall g :: g in a + b <==> g in a || g in b;
  }

  /** The ids of a non-empty sequence: the head's id and the tail's ids. */
  lemma IdsHeadTail(s: seq<Genre>)
    requires |s| > 0
    ensures Ids(s) == {s[0].id} + Ids(s[1..])
  {
    assert s == [s[0]] + s[1..];
    IdsConcat([s[0]], s[1..]);
  }

  /** The ids of a sequence with a genre put in front. */
  lemma IdsCons(h: Genre, t: seq<Genre>)
    ensures Ids([h] + t) == {h.id} + Ids(t)
  {
    IdsConcat([h], t);
  }

  /** Every element is a catalog record. */
  predicate FromCatalog(s: seq<Genre>) {
    forall g :: g in s ==> g in DefaultGenres
  }

  /** TreeSet.add under the id comparator: an element with an equal id is
      kept and the new one dropped; otherwise the new one goes in order. */
  function Insert(s: seq<Genre>, g: Genre): (r: seq<Genre>)
    ensures Ids(r) == Ids(s) + {g.id}
    ensures forall x :: x in r ==> x in s || x == g
  {
    if |s| == 0 then [g]
    else if g.id == s[0].id then s
    else if g.id < s[0].id then [g] + s
    else
      var t := Insert(s[1..], g);
      IdsHeadTail(s);
      IdsCons(s[0], t);
      [s[0]] + t
  }

  /** Inserting a catalog record into catalog records gives catalog records. */
  lemma InsertFromCatalog(s: seq<Genre>, g: Genre)
    requires FromCatalog(s) && g in DefaultGenres
    ensures FromCatalog(Insert(s, g))
  {
  }

  /** Insert keeps an id-ascending sequence id-ascending. */
  lemma {:induction false} InsertKeepsOrder(s: seq<Genre>, g: Genre)
    requires StrictlyAscending(s)
    ensures StrictlyAscending(Insert(s, g))
  {
    if |s| > 0 && g.id > s[0].id {
      var t := Insert(s[1..], g);
      InsertKeepsOrder(s[1..], g);
      assert forall x :: x in t ==> s[0].id < x.id;
      PrependKeepsOrder(s[0], t);
    } else if |s| > 0 && g.id < s[0].id {
      PrependKeepsOrder(g, s);
    }
  }

  /** Putting a genre with a smaller id than all others in front keeps the
      order. */
  lemma PrependKeepsOrder(h: Genre, t: seq<Genre>)
    requires StrictlyAscending(t)
    requires forall x :: x in t ==> h.id < x.id
    ensures StrictlyAscending([h] + t)
  {
    forall i, j | 0 <= i < j < |t| + 1
      ensures ([h] + t)[i].id < ([h] + t)[j].id
    {
      if i == 0 {
        assert t[j - 1] in t;
      }
    }
  }

  /** On an id-ascending sequence, inserting an id already present changes
      nothing; inserting a new id keeps every old element and adds the genre. */
  lemma {:induction false} InsertContents(s: seq<Genre>, g: Genre)
    requires StrictlyAscending(s)
    ensures g.id in Ids(s) ==> Insert(s, g) == s
    ensures g.id !in Ids(s) ==> g in Insert(s, g) && forall x :: x in s ==> x in Insert(s, g)
  {
    if |s| > 0 {
      assert s == [s[0]] + s[1..];
      if g.id > s[0].id {
        InsertContents(s[1..], g);
        assert g.id in Ids(s) ==> g.id in Ids(s[1..]);
      }
    }
  }

  /** removeIf(g -> g.getId() == id): drops every element with that id and
      keeps the others in their order. */
  function RemoveId(s: seq<Genre>, id: int): (r: seq<Genre>)
    ensures forall x :: x in r <==> x in s && x.id != id
  {
    if |s| == 0 then []
    else if s[0].id == id then RemoveId(s[1..], id)
    else [s[0]] + RemoveId(s[1..], id)
  }

  /** RemoveId takes exactly the id away and changes nothing when no
      element carries the id. */
  lemma {:induction false} RemoveIdContents(s: seq<Genre>, id: int)
    ensures Ids(RemoveId(s, id)) == Ids(s) - {id}
    ensures id !in Ids(s) ==> RemoveId(s, id) == s
  {
    if |s| > 0 {
      RemoveIdContents(s[1..], id);
      assert s == [s[0]] + s[1..];
      IdsHeadTail(s);
    }
  }

  /** Removing the id a genre was just inserted under undoes the insert when
      the id was new. */
  lemma {:induction false} RemoveUndoesInsert(s: seq<Genre>, g: Genre)
    requires g.id !in Ids(s)
    ensures RemoveId(Insert(s, g), g.id) == s
  {
    if |s| == 0 {
    } else if g.id < s[0].id {
      RemoveIdContents(s, g.id);
    } else {
      assert s[0].id != g.id by { assert s[0] in s; }
      assert g.id !in Ids(s[1..]);
      RemoveUndoesInsert(s[1..], g);
      assert s == [s[0]] + s[1..];
    }
  }

  /** RemoveId keeps an id-ascending sequence id-ascending. */
  lemma {:induction false} RemoveIdKeepsOrder(s: seq<Genre>, id: int)
    requires StrictlyAscending(s)
    ensures StrictlyAscending(RemoveId(s, id))
  {
    if |s| > 0 {
      var t := RemoveId(s[1..], id);
      RemoveIdKeepsOrder(s[1..], id);
      if s[0].id != id {
        forall i, j | 0 <= i < j < |t| + 1
          ensures ([s[0]] + t)[i].id < ([s[0]] + t)[j].id
        {
          if i == 0 {
            assert t[j - 1] in t;
            assert t[j - 1] in s[1..];
          }
        }
      }
    }
  }

  /** Two id-ascending sequences of catalog records with the same ids are the
      same sequence: the TreeSet's contents fix its order and its elements. */
  lemma IdsEmptyIffEmpty(s: seq<Genre>)
    ensures Ids(s) == {} <==> |s| == 0
  {
    if |s| > 0 {
      assert s[0].id in Ids(s);
    }
  }

  lemma {:induction false} CanonicalById(a: seq<Genre>, b: seq<Genre>)
    requires StrictlyAscending(a) && StrictlyAscending(b)
    requires FromCatalog(a) && FromCatalog(b)
    requires Ids(a) == Ids(b)
    ensures a == b
  {
    IdsEmptyIffEmpty(a);
    IdsEmptyIffEmpty(b);
    if |a| > 0 && |b| > 0 {
      // the heads carry the least id of the common id set
      assert a[0].id in Ids(b);
      assert b[0].id in Ids(a);
      GenreDeterminedById(a[0], b[0]);
      assert Ids(a[1..]) == Ids(a) - {a[0].id};
      assert Ids(b[1..]) == Ids(b) - {b[0].id};
      CanonicalById(a[1..], b[1..]);
    }
  }
}
