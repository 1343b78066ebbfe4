/** `NEODatabase` (database.py): the linked collections of near-Earth objects
    and close approaches, the lookups by designation and by name, and the
    query that streams the approaches matching a list of filters.

    The file is a draft, and the model follows what its documentation
    promises rather than a few lines that cannot run as intended:
    - database.py:47 names `self.link_neos_and_approaches` without calling
      it; here the constructor links.
    - database.py:65-67 read `self._pdes_to_index_map`, `approach._designation`
      and `self.neos`, none of which exists; here linking uses the designation
      index the method builds at database.py:59-61.
    - database.py:116 reads `self._neos_to_names`, while database.py:80
      builds `self._neo_to_names`; here the name lookup uses that index.
    - database.py:97 and database.py:116 apply `.capitalize()` to the key,
      against the exact matching their documentation promises
      (database.py:90-91, 109-110); here lookups are exact.
    - database.py:137 passes `lambda f: (approach)`, which never calls `f`;
      here every filter is called on the approach.
    - database.py:139-141 attach the unfiltered loop as the `else` of the
      `for`; here it runs when no filter is given, as database.py:125 says. */
module Database {
  import opened Common
  import opened Text
  import opened Helpers
  import opened Models
  import opened Filters

  /** The index a Python dict comprehension over `keys` builds, skipping the
      `None` keys: each key maps to the position of its last occurrence. */
  function LastIndex(keys: seq<Option<string>>): (m: map<string, nat>)
    ensures forall k :: k in m <==> Some(k) in keys
    ensures forall k :: k in m ==> m[k] < |keys| && keys[m[k]] == Some(k)
    ensures forall k, j :: k in m && m[k] < j < |keys| ==> keys[j] != Some(k)
  {
    if |keys| == 0 then map[]
    else
      var init := keys[..|keys| - 1];
      var last := keys[|keys| - 1];
      assert keys == init + [last];
      var m := LastIndex(init);
      if last.Some? then m[last.value := |keys| - 1] else m
  }

  function Designations(neos: seq<NearEarthObject>): (r: seq<Option<string>>)
    ensures |r| == |neos|
    ensures forall k :: 0 <= k < |neos| ==> r[k] == Some(neos[k].designation)
  {
    seq(|neos|, k requires 0 <= k < |neos| => Some(neos[k].designation))
  }

  function Names(neos: seq<NearEarthObject>): (r: seq<Option<string>>)
    ensures |r| == |neos|
    ensures forall k :: 0 <= k < |neos| ==> r[k] == neos[k].name
  {
    seq(|neos|, k requires 0 <= k < |neos| => neos[k].name)
  }

  /** The position of the NEO a close approach belongs to, by the index from
      designation to position (database.py:59-61, 65). */
  function Owner(index: map<string, nat>, a: CloseApproach): Option<nat>
  {
    if a.designation in index then Some(index[a.designation]) else None
  }

  /** The positions of the approaches that belong to NEO `k`, in the order of
      the loop at database.py:63-67. */
  function OwnedBy(index: map<string, nat>, approaches: seq<CloseApproach>, k: nat): (r: seq<nat>)
    ensures forall j :: j in r <==> 0 <= j < |approaches| && Owner(index, approaches[j]) == Some(k)
    ensures forall i, j :: 0 <= i < j < |r| ==> r[i] < r[j]
  {
    if |approaches| == 0 then []
    else
      var n := |approaches| - 1;
      var r := OwnedBy(index, approaches[..n], k);
      assert forall j :: 0 <= j < n ==> approaches[..n][j] == approaches[j];
      assert forall i :: 0 <= i < |r| ==> r[i] in r;
      if Owner(index, approaches[n]) == Some(k) then r + [n] else r
  }

  /** The NEOs after linking: each one's `approaches` gains, in order, the
      approaches whose designation the index sends to it (database.py:67). */
  function LinkNeos(neos: seq<NearEarthObject>, approaches: seq<CloseApproach>): (r: seq<NearEarthObject>)
    ensures |r| == |neos|
    ensures forall k :: 0 <= k < |neos| ==>
      r[k] == neos[k].(approaches := r[k].approaches) && neos[k].approaches <= r[k].approaches
    ensures Designations(r) == Designations(neos) && Names(r) == Names(neos)
  {
    var index := LastIndex(Designations(neos));
    var r := seq(|neos|, k requires 0 <= k < |neos| =>
      neos[k].(approaches := neos[k].approaches + OwnedBy(index, approaches, k)));
    SameKeys(r, neos);
    r
  }

  lemma SameKeys(a: seq<NearEarthObject>, b: seq<NearEarthObject>)
    requires |a| == |b|
    requires forall k :: 0 <= k < |a| ==> a[k].designation == b[k].designation && a[k].name == b[k].name
    ensures Designations(a) == Designations(b) && Names(a) == Names(b)
  {
  }

  /** Some NEO carries the designation `d`. */
  predicate HasNeo(neos: seq<NearEarthObject>, d: string)
  {
    exists k :: 0 <= k < |neos| && neos[k].designation == d
  }

  lemma DesignationIndexed(neos: seq<NearEarthObject>, d: string)
    ensures d in LastIndex(Designations(neos)) <==> HasNeo(neos, d)
  {
    var keys := Designations(neos);
    if HasNeo(neos, d) {
      var k :| 0 <= k < |neos| && neos[k].designation == d;
      assert keys[k] == Some(d);
    }
    if d in LastIndex(keys) {
      var k := LastIndex(keys)[d];
      assert neos[k].designation == d;
    }
  }

  /** One approach after linking, given the linked NEOs: if its designation
      names an NEO it references that NEO, and otherwise it is left as it
      was (database.py:63-66). */
  function LinkApproach(neos: seq<NearEarthObject>, linked: seq<NearEarthObject>, a: CloseApproach): (r: CloseApproach)
    requires Designations(linked) == Designations(neos)
    ensures r == a.(neo := r.neo)
    ensures HasNeo(neos, a.designation) ==>
      r.neo.Some? && r.neo.value in linked && r.neo.value.designation == a.designation
    ensures !HasNeo(neos, a.designation) ==> r == a
  {
    var index := LastIndex(Designations(neos));
    DesignationIndexed(neos, a.designation);
    if a.designation in index then
      var k := index[a.designation];
      assert Designations(linked)[k] == Some(a.designation);
      a.(neo := Some(linked[k]))
    else
      a
  }

  /** The approaches after linking (database.py:63-66). */
  function LinkApproaches(neos: seq<NearEarthObject>, approaches: seq<CloseApproach>): (r: seq<CloseApproach>)
    ensures |r| == |approaches|
    ensures forall j :: 0 <= j < |approaches| ==> r[j] == approaches[j].(neo := r[j].neo)
    ensures forall j :: 0 <= j < |approaches| && HasNeo(neos, approaches[j].designation) ==>
      && r[j].neo.Some? && r[j].neo.value in LinkNeos(neos, approaches)
      && r[j].neo.value.designation == approaches[j].designation
    ensures forall j :: 0 <= j < |approaches| && !HasNeo(neos, approaches[j].designation) ==> r[j] == approaches[j]
  {
    var linked := LinkNeos(neos, approaches);
    seq(|approaches|, j requires 0 <= j < |approaches| => LinkApproach(neos, linked, approaches[j]))
  }

  /** An `NEODatabase` after construction: the linked collections. The two
      auxiliary dicts of database.py:79-80 are functions of the NEOs,
      `DesignationIndex` and `NameIndex`. */
  datatype Database = Database(neos: seq<NearEarthObject>, approaches: seq<CloseApproach>)

  /** The dict of database.py:79, sending a designation to the position of
      its NEO. */
  function DesignationIndex(db: Database): map<string, nat>
  {
    LastIndex(Designations(db.neos))
  }

  /** The dict of database.py:80, sending a name to the position of its NEO. */
  function NameIndex(db: Database): map<string, nat>
  {
    LastIndex(Names(db.neos))
  }

  /** `NEODatabase.__init__` followed by `link_neos_and_approaches`
      (database.py:23-49, 52-80). */
  function NewDatabase(neos: seq<NearEarthObject>, approaches: seq<CloseApproach>): (db: Database)
    ensures |db.neos| == |neos| && |db.approaches| == |approaches|
    ensures forall k :: 0 <= k < |neos| ==>
      db.neos[k] == neos[k].(approaches := db.neos[k].approaches) && neos[k].approaches <= db.neos[k].approaches
    ensures forall j :: 0 <= j < |approaches| ==> db.approaches[j] == approaches[j].(neo := db.approaches[j].neo)
    ensures forall j :: 0 <= j < |approaches| && HasNeo(neos, approaches[j].designation) ==>
      && db.approaches[j].neo.Some? && db.approaches[j].neo.value in db.neos
      && db.approaches[j].neo.value.designation == approaches[j].designation
    ensures forall j :: 0 <= j < |approaches| && !HasNeo(neos, approaches[j].designation) ==>
      db.approaches[j] == approaches[j]
  {
    Database(LinkNeos(neos, approaches), LinkApproaches(neos, approaches))
  }

  /** The documented precondition of the constructor (database.py:26-29):
      nothing is linked yet. */
  predicate Unlinked(neos: seq<NearEarthObject>, approaches: seq<CloseApproach>)
  {
    && (forall k :: 0 <= k < |neos| ==> neos[k].approaches == [])
    && (forall j :: 0 <= j < |approaches| ==> approaches[j].neo.None?)
  }

  /** Every NEO has its own primary designation (database.py:88). */
  predicate UniqueDesignations(neos: seq<NearEarthObject>)
  {
    forall i, k :: 0 <= i < |neos| && 0 <= k < |neos| && neos[i].designation == neos[k].designation ==> i == k
  }

  predicate UniqueNames(neos: seq<NearEarthObject>)
  {
    forall i, k :: 0 <= i < |neos| && 0 <= k < |neos| && neos[i].name.Some? && neos[i].name == neos[k].name ==> i == k
  }

  /** With unique designations, the index sends each NEO's designation to
      that NEO. */
  lemma IndexOfUniqueDesignation(neos: seq<NearEarthObject>, k: nat)
    requires k < |neos| && UniqueDesignations(neos)
    ensures LastIndex(Designations(neos))[neos[k].designation] == k
  {
    var keys := Designations(neos);
    var m := LastIndex(keys);
    assert keys[k] == Some(neos[k].designation);
    var i := m[neos[k].designation];
    assert keys[i] == Some(neos[k].designation);
    assert neos[i].designation == neos[k].designation;
  }

  /** After construction each NEO lists, in input order, exactly the close
      approaches that carry its designation (database.py:33-36, 63-67). */
  lemma NeoApproachesInOrder(neos: seq<NearEarthObject>, approaches: seq<CloseApproach>, k: nat)
    requires Unlinked(neos, approaches) && UniqueDesignations(neos)
    requires k < |neos|
    ensures var listed := NewDatabase(neos, approaches).neos[k].approaches;
      && (forall j :: j in listed <==> 0 <= j < |approaches| && approaches[j].designation == neos[k].designation)
      && (forall i, j :: 0 <= i < j < |listed| ==> listed[i] < listed[j])
  {
    var index := LastIndex(Designations(neos));
    IndexOfUniqueDesignation(neos, k);
    var listed := NewDatabase(neos, approaches).neos[k].approaches;
    assert listed == OwnedBy(index, approaches, k);
    forall j | 0 <= j < |approaches| ensures Owner(index, approaches[j]) == Some(k) <==> approaches[j].designation == neos[k].designation {
      if approaches[j].designation in index {
        var i := index[approaches[j].designation];
        assert Designations(neos)[i] == Some(approaches[j].designation);
        IndexOfUniqueDesignation(neos, i);
      }
    }
  }

  /** A close approach whose designation names no NEO stays unlinked and is
      listed under no NEO (database.py:65). */
  lemma OrphanStaysUnlinked(neos: seq<NearEarthObject>, approaches: seq<CloseApproach>, j: nat)
    requires Unlinked(neos, approaches)
    requires j < |approaches| && !HasNeo(neos, approaches[j].designation)
    ensures NewDatabase(neos, approaches).approaches[j] == approaches[j]
    ensures forall k :: 0 <= k < |neos| ==> j !in NewDatabase(neos, approaches).neos[k].approaches
  {
    var index := LastIndex(Designations(neos));
    DesignationIndexed(neos, approaches[j].designation);
    forall k | 0 <= k < |neos| ensures j !in NewDatabase(neos, approaches).neos[k].approaches {
      LinkedNeo(neos, approaches, k);
      NotOwned(index, approaches, j, k);
    }
  }

  lemma NotOwned(index: map<string, nat>, approaches: seq<CloseApproach>, j: nat, k: nat)
    requires j < |approaches| && approaches[j].designation !in index
    ensures j !in OwnedBy(index, approaches, k)
  {
  }

  /** What linking adds to the NEO at position `k`. */
  lemma LinkedNeo(neos: seq<NearEarthObject>, approaches: seq<CloseApproach>, k: nat)
    requires k < |neos|
    ensures LinkNeos(neos, approaches)[k].approaches
         == neos[k].approaches + OwnedBy(LastIndex(Designations(neos)), approaches, k)
  {
  }

  /** `get_neo_by_designation` (database.py:83-97), matching exactly. */
  function GetNeoByDesignation(db: Database, designation: string): (r: Option<NearEarthObject>)
    ensures r.Some? ==> r.value in db.neos && r.value.designation == designation
    ensures r.None? <==> forall n :: n in db.neos ==> n.designation != designation
  {
    var index := DesignationIndex(db);
    if designation in index then
      var k := index[designation];
      assert Designations(db.neos)[k] == Some(designation);
      Some(db.neos[k])
    else
      assert forall k :: 0 <= k < |db.neos| ==> Designations(db.neos)[k] != Some(designation);
      None
  }

  /** `get_neo_by_name` (database.py:101-117), matching exactly. */
  function GetNeoByName(db: Database, name: string): (r: Option<NearEarthObject>)
    ensures r.Some? ==> r.value in db.neos && r.value.name == Some(name)
    ensures r.None? <==> forall n :: n in db.neos ==> n.name != Some(name)
  {
    var index := NameIndex(db);
    if name in index then
      var k := index[name];
      assert Names(db.neos)[k] == Some(name);
      Some(db.neos[k])
    else
      assert forall k :: 0 <= k < |db.neos| ==> Names(db.neos)[k] != Some(name);
      None
  }

  /** Every NEO is found by its own designation (database.py:86-88). */
  lemma FindsEveryDesignation(db: Database, k: nat)
    requires k < |db.neos| && UniqueDesignations(db.neos)
    ensures GetNeoByDesignation(db, db.neos[k].designation) == Some(db.neos[k])
  {
    IndexOfUniqueDesignation(db.neos, k);
  }

  /** Every named NEO is found by its name (database.py:104-107). */
  lemma FindsEveryName(db: Database, k: nat)
    requires k < |db.neos| && UniqueNames(db.neos) && db.neos[k].name.Some?
    ensures GetNeoByName(db, db.neos[k].name.value) == Some(db.neos[k])
  {
    var keys := Names(db.neos);
    var name := db.neos[k].name.value;
    assert keys[k] == Some(name);
    var i := NameIndex(db)[name];
    assert keys[i] == Some(name);
    assert db.neos[i].name == db.neos[k].name;
  }

  /** No NEO built by its constructor has a blank name, so a blank name,
      the empty string included, finds nothing (database.py:106-107). */
  lemma BlankNameFindsNothing(db: Database, name: string)
    requires forall n :: n in db.neos ==> n.name.None? || !IsBlank(n.name.value)
    requires IsBlank(name)
    ensures GetNeoByName(db, name).None?
  {
  }

  /** `all(f(approach) for f in filters)`: the filters in order, stopping at
      the first false verdict or the first error (database.py:137). */
  function AllPass(filters: seq<Filter>, a: CloseApproach): (r: Result<bool, FilterError>)
    ensures r == Ok(true) <==> forall i :: 0 <= i < |filters| ==> Call(filters[i], a) == Ok(true)
    ensures r.Err? ==> exists i :: 0 <= i < |filters| && Call(filters[i], a) == r
                                   && (forall h :: 0 <= h < i ==> Call(filters[h], a) == Ok(true))
    ensures r == Ok(false) ==> exists i :: 0 <= i < |filters| && Call(filters[i], a) == Ok(false)
                                        && (forall h :: 0 <= h < i ==> Call(filters[h], a) == Ok(true))
  {
    if |filters| == 0 then Ok(true)
    else
      var rest := AllPass(filters[1..], a);
      assert forall i :: 0 < i < |filters| ==> filters[i] == filters[1..][i - 1];
      match Call(filters[0], a)
      case Err(e) => Err(e)
      case Ok(b) => if b then rest else Ok(false)
  }

  /** The loop of database.py:135-138 over `approaches`: the approaches every
      filter accepts, in order, up to the first one a filter raises on. */
  function Select(approaches: seq<CloseApproach>, filters: seq<Filter>): (r: Stream<CloseApproach, FilterError>)
    ensures forall x :: x in r.items ==> x in approaches && AllPass(filters, x) == Ok(true)
    ensures |r.items| <= |approaches|
    ensures r.raised.None? <==> forall j :: 0 <= j < |approaches| ==> AllPass(filters, approaches[j]).Ok?
    ensures r.raised.Some? ==> exists j :: 0 <= j < |approaches| && AllPass(filters, approaches[j]) == Err(r.raised.value)
  {
    if |approaches| == 0 then Stream([], None)
    else
      match AllPass(filters, approaches[0])
      case Err(e) => Stream([], Some(e))
      case Ok(pass) =>
        var rest := Select(approaches[1..], filters);
        SelectedItems(approaches, filters, pass, rest.items);
        SelectedRaised(approaches, filters, rest.raised);
        Stream((if pass then [approaches[0]] else []) + rest.items, rest.raised)
  }

  /** The items `Select` keeps past a first approach no filter raised on. */
  lemma SelectedItems(approaches: seq<CloseApproach>, filters: seq<Filter>, pass: bool, rest: seq<CloseApproach>)
    requires |approaches| > 0 && AllPass(filters, approaches[0]) == Ok(pass)
    requires forall x :: x in rest ==> x in approaches[1..] && AllPass(filters, x) == Ok(true)
    requires |rest| <= |approaches[1..]|
    ensures var items := (if pass then [approaches[0]] else []) + rest;
      && (forall x :: x in items ==> x in approaches && AllPass(filters, x) == Ok(true))
      && |items| <= |approaches|
  {
  }

  /** What `Select` raises past a first approach no filter raised on. */
  lemma SelectedRaised(approaches: seq<CloseApproach>, filters: seq<Filter>, raised: Option<FilterError>)
    requires |approaches| > 0 && AllPass(filters, approaches[0]).Ok?
    requires raised.None? <==> forall j :: 0 <= j < |approaches[1..]| ==> AllPass(filters, approaches[1..][j]).Ok?
    requires raised.Some? ==> exists j :: 0 <= j < |approaches[1..]| && AllPass(filters, approaches[1..][j]) == Err(raised.value)
    ensures raised.None? <==> forall j :: 0 <= j < |approaches| ==> AllPass(filters, approaches[j]).Ok?
    ensures raised.Some? ==> exists j :: 0 <= j < |approaches| && AllPass(filters, approaches[j]) == Err(raised.value)
  {
    assert forall j :: 0 < j < |approaches| ==> approaches[j] == approaches[1..][j - 1];
  }

  /** `query` (database.py:119-141): every approach when there is no filter,
      and otherwise those that pass every filter. */
  function Query(db: Database, filters: seq<Filter>): (r: Stream<CloseApproach, FilterError>)
    ensures filters == [] ==> r == Stream(db.approaches, None)
    ensures forall x :: x in r.items ==> x in db.approaches && AllPass(filters, x) == Ok(true)
    ensures r.raised.None? <==> forall j :: 0 <= j < |db.approaches| ==> AllPass(filters, db.approaches[j]).Ok?
  {
    if filters == [] then Stream(db.approaches, None) else Select(db.approaches, filters)
  }

  /** The approaches that pass every filter, kept in order: a reference
      definition built from the back of the sequence. */
  function Matching(approaches: seq<CloseApproach>, filters: seq<Filter>): seq<CloseApproach>
  {
    if |approaches| == 0 then []
    else
      var last := approaches[|approaches| - 1];
      Matching(approaches[..|approaches| - 1], filters) + (if AllPass(filters, last) == Ok(true) then [last] else [])
  }

  lemma {:induction false} MatchingFront(approaches: seq<CloseApproach>, filters: seq<Filter>)
    requires |approaches| > 0
    ensures Matching(approaches, filters) ==
      (if AllPass(filters, approaches[0]) == Ok(true) then [approaches[0]] else []) + Matching(approaches[1..], filters)
    decreases |approaches|
  {
    if |approaches| > 1 {
      var n := |approaches| - 1;
      MatchingFront(approaches[..n], filters);
      assert approaches[..n][1..] == approaches[1..][..n - 1];
      assert approaches[..n][0] == approaches[0];
      assert approaches[1..][n - 1] == approaches[n];
    }
  }

  /** When no filter raises on any approach, selecting streams exactly the
      matching approaches in order, and nothing is raised. */
  lemma {:induction false} SelectIsMatching(approaches: seq<CloseApproach>, filters: seq<Filter>)
    requires forall j :: 0 <= j < |approaches| ==> AllPass(filters, approaches[j]).Ok?
    ensures Select(approaches, filters) == Stream(Matching(approaches, filters), None)
    decreases |approaches|
  {
    if |approaches| > 0 {
      assert forall j :: 0 < j < |approaches| ==> approaches[j] == approaches[1..][j - 1];
      SelectIsMatching(approaches[1..], filters);
      MatchingFront(approaches, filters);
    }
  }

  /** When a filter raises on approach `j` and on none before it, the loop
      has yielded the matching approaches of the prefix, in order, and then
      raises that first error: the generator stops there. */
  lemma {:induction false} SelectUpToError(approaches: seq<CloseApproach>, filters: seq<Filter>, j: nat)
    requires j < |approaches| && AllPass(filters, approaches[j]).Err?
    requires forall h :: 0 <= h < j ==> AllPass(filters, approaches[h]).Ok?
    ensures Select(approaches, filters) ==
      Stream(Matching(approaches[..j], filters), Some(AllPass(filters, approaches[j]).error))
    decreases j
  {
    if j == 0 {
      SelectAtError(approaches, filters);
    } else {
      var rest := approaches[1..];
      assert rest[j - 1] == approaches[j];
      assert forall h :: 0 <= h < j - 1 ==> rest[h] == approaches[h + 1];
      SelectUpToError(rest, filters, j - 1);
      SelectPastFront(approaches, filters, j);
    }
  }

  /** A first approach a filter raises on stops the loop before anything
      is yielded. */
  lemma SelectAtError(approaches: seq<CloseApproach>, filters: seq<Filter>)
    requires |approaches| > 0 && AllPass(filters, approaches[0]).Err?
    ensures Select(approaches, filters) ==
      Stream(Matching(approaches[..0], filters), Some(AllPass(filters, approaches[0]).error))
  {
    assert approaches[..0] == [];
  }

  /** The step of `SelectUpToError`: what the loop yields from the rest
      before the error, preceded by the first approach if it matches. */
  lemma SelectPastFront(approaches: seq<CloseApproach>, filters: seq<Filter>, j: nat)
    requires 0 < j < |approaches| && AllPass(filters, approaches[0]).Ok? && AllPass(filters, approaches[j]).Err?
    requires Select(approaches[1..], filters) ==
      Stream(Matching(approaches[1..][..j - 1], filters), Some(AllPass(filters, approaches[j]).error))
    ensures Select(approaches, filters) ==
      Stream(Matching(approaches[..j], filters), Some(AllPass(filters, approaches[j]).error))
  {
    SelectFront(approaches, filters);
    MatchingOfPrefix(approaches, filters, j);
  }

  /** Past a first approach no filter raises on, the loop yields that
      approach if it matches and carries on with the rest. */
  lemma SelectFront(approaches: seq<CloseApproach>, filters: seq<Filter>)
    requires |approaches| > 0 && AllPass(filters, approaches[0]).Ok?
    ensures var rest := Select(approaches[1..], filters);
      Select(approaches, filters) ==
        Stream((if AllPass(filters, approaches[0]) == Ok(true) then [approaches[0]] else []) + rest.items, rest.raised)
  {
  }

  /** The matches of a prefix of length `j` unfold from the front into the
      matches of the rest's prefix of length `j - 1`. */
  lemma MatchingOfPrefix(approaches: seq<CloseApproach>, filters: seq<Filter>, j: nat)
    requires 0 < j <= |approaches|
    ensures Matching(approaches[..j], filters) ==
      (if AllPass(filters, approaches[0]) == Ok(true) then [approaches[0]] else []) + Matching(approaches[1..][..j - 1], filters)
  {
    var prefix := approaches[..j];
    MatchingFront(prefix, filters);
    assert prefix[0] == approaches[0];
    assert prefix[1..] == approaches[1..][..j - 1];
  }

  /** A query whose filters raise on approach `j` and on none before it
      yields the approaches of the prefix that satisfy every filter, then
      raises the first error (database.py:135-138). */
  lemma QueryUpToError(db: Database, filters: seq<Filter>, j: nat)
    requires j < |db.approaches| && AllPass(filters, db.approaches[j]).Err?
    requires forall h :: 0 <= h < j ==> AllPass(filters, db.approaches[h]).Ok?
    ensures Query(db, filters) ==
      Stream(Matching(db.approaches[..j], filters), Some(AllPass(filters, db.approaches[j]).error))
  {
    SelectUpToError(db.approaches, filters, j);
  }

  /** A query limited to `n` results, when at least `n` approaches match
      before the first one a filter raises on, gives those first `n`
      matches and never reaches the error (database.py:135-138 with
      filters.py:142-151). */
  lemma LimitedQueryBeforeError(db: Database, filters: seq<Filter>, j: nat, n: nat)
    requires j < |db.approaches| && AllPass(filters, db.approaches[j]).Err?
    requires forall h :: 0 <= h < j ==> AllPass(filters, db.approaches[h]).Ok?
    requires 0 < n <= |Matching(db.approaches[..j], filters)|
    ensures Limit(Query(db, filters), Some(n)) == Stream(Matching(db.approaches[..j], filters)[..n], None)
  {
    QueryUpToError(db, filters, j);
  }

  /** Querying with filters yields, in order, exactly the approaches that
      satisfy all of them, when none raises (database.py:121-122). */
  lemma QueryIsConjunction(db: Database, filters: seq<Filter>)
    requires forall j :: 0 <= j < |db.approaches| ==> AllPass(filters, db.approaches[j]).Ok?
    ensures Query(db, filters) == Stream(Matching(db.approaches, filters), None)
  {
    if filters == [] {
      MatchingAll(db.approaches, filters);
    } else {
      SelectIsMatching(db.approaches, filters);
    }
  }

  lemma {:induction false} MatchingAll(approaches: seq<CloseApproach>, filters: seq<Filter>)
    requires filters == []
    ensures Matching(approaches, filters) == approaches
    decreases |approaches|
  {
    if |approaches| > 0 {
      MatchingAll(approaches[..|approaches| - 1], filters);
    }
  }

  /** No filter raises on an approach that has a time and a linked NEO. */
  lemma NoErrorWhenLinkedAndTimed(filters: seq<Filter>, a: CloseApproach)
    requires a.time.Some? && a.neo.Some?
    ensures AllPass(filters, a).Ok?
  {
  }

  /** The conjunction of the criteria, read off the options directly: a
      reference for what the filters of `create_filters` accept. */
  predicate Meets(c: Criteria, a: CloseApproach)
    requires a.time.Some? && a.neo.Some?
  {
    var day := DateOf(a.time.value);
    var neo := a.neo.value;
    && (c.date.Some? ==> day == c.date.value)
    && (c.startDate.Some? ==> !DateBefore(day, c.startDate.value))
    && (c.endDate.Some? ==> !DateBefore(c.endDate.value, day))
    && (Truthy(c.distanceMin) ==> a.distance.Some? && a.distance.value >= c.distanceMin.value)
    && (Truthy(c.distanceMax) ==> a.distance.Some? && a.distance.value <= c.distanceMax.value)
    && (Truthy(c.velocityMin) ==> a.velocity.Some? && a.velocity.value >= c.velocityMin.value)
    && (Truthy(c.velocityMax) ==> a.velocity.Some? && a.velocity.value <= c.velocityMax.value)
    && (Truthy(c.diameterMin) ==> neo.diameter.Some? && neo.diameter.value >= c.diameterMin.value)
    && (Truthy(c.diameterMax) ==> neo.diameter.Some? && neo.diameter.value <= c.diameterMax.value)
    && (c.hazardous.Some? ==> neo.hazardous == c.hazardous.value)
  }

  /** The filters `create_filters` builds accept a timed, linked approach
      exactly when it meets every given criterion. */
  lemma CreatedFiltersMeanCriteria(c: Criteria, a: CloseApproach)
    requires a.time.Some? && a.neo.Some?
    ensures AllPass(CreateFilters(c), a) == Ok(Meets(c, a))
  {
    var fs := CreateFilters(c);
    if Meets(c, a) {
      forall i | 0 <= i < |fs| ensures Call(fs[i], a) == Ok(true) {
        assert fs[i] in fs;
        ProducedFilterAccepts(c, a, fs[i]);
      }
      assert AllPass(fs, a) == Ok(true);
    } else {
      var f := FailedCriterion(c, a);
      assert f in fs;
      var i :| 0 <= i < |fs| && fs[i] == f;
      NoErrorWhenLinkedAndTimed(fs, a);
      AllPassRejects(fs, a, i);
    }
  }

  /** One false verdict makes the conjunction false, when nothing raises. */
  lemma AllPassRejects(filters: seq<Filter>, a: CloseApproach, i: nat)
    requires i < |filters| && Call(filters[i], a) == Ok(false)
    requires AllPass(filters, a).Ok?
    ensures AllPass(filters, a) == Ok(false)
  {
    assert Call(filters[i], a) != Ok(true);
    assert !(forall h :: 0 <= h < |filters| ==> Call(filters[h], a) == Ok(true));
    assert AllPass(filters, a) != Ok(true);
    assert AllPass(filters, a).value == false;
  }

  /** A filter the criteria produce accepts an approach meeting them. */
  lemma ProducedFilterAccepts(c: Criteria, a: CloseApproach, f: Filter)
    requires a.time.Some? && a.neo.Some? && Meets(c, a) && Produces(c, f)
    ensures Call(f, a) == Ok(true)
  {
    if f.DateFilter? {
      var day := DateOf(a.time.value);
      DateKeyOrder(day, f.date);
      DateKeyOrder(f.date, day);
    }
  }

  /** A filter of `create_filters` that rejects an approach not meeting the
      criteria. */
  function FailedCriterion(c: Criteria, a: CloseApproach): (f: Filter)
    requires a.time.Some? && a.neo.Some? && !Meets(c, a)
    ensures Produces(c, f) && Call(f, a) == Ok(false)
  {
    var day := DateOf(a.time.value);
    var neo := a.neo.value;
    if c.date.Some? && day != c.date.value then
      DateKeyOrder(day, c.date.value);
      DateFilter(Eq, c.date.value)
    else if c.startDate.Some? && DateBefore(day, c.startDate.value) then
      DateKeyOrder(day, c.startDate.value);
      DateFilter(Ge, c.startDate.value)
    else if c.endDate.Some? && DateBefore(c.endDate.value, day) then
      DateKeyOrder(day, c.endDate.value);
      DateKeyOrder(c.endDate.value, day);
      DateFilter(Le, c.endDate.value)
    else if Truthy(c.distanceMin) && !(a.distance.Some? && a.distance.value >= c.distanceMin.value) then
      DistanceFilter(Ge, c.distanceMin.value)
    else if Truthy(c.distanceMax) && !(a.distance.Some? && a.distance.value <= c.distanceMax.value) then
      DistanceFilter(Le, c.distanceMax.value)
    else if Truthy(c.velocityMin) && !(a.velocity.Some? && a.velocity.value >= c.velocityMin.value) then
      VelocityFilter(Ge, c.velocityMin.value)
    else if Truthy(c.velocityMax) && !(a.velocity.Some? && a.velocity.value <= c.velocityMax.value) then
      VelocityFilter(Le, c.velocityMax.value)
    else if Truthy(c.diameterMin) && !(neo.diameter.Some? && neo.diameter.value >= c.diameterMin.value) then
      DiameterFilter(Ge, c.diameterMin.value)
    else if Truthy(c.diameterMax) && !(neo.diameter.Some? && neo.diameter.value <= c.diameterMax.value) then
      DiameterFilter(Le, c.diameterMax.value)
    else
      HazardousFilter(Eq, c.hazardous.value)
  }

  /** A strictly increasing sequence of positions below `n` has at most
      `n` elements. */
  lemma {:induction false} IncreasingWithinBound(xs: seq<nat>, n: nat)
    requires forall i, j :: 0 <= i < j < |xs| ==> xs[i] < xs[j]
    requires forall i :: 0 <= i < |xs| ==> xs[i] < n
    ensures |xs| <= n
  {
    if |xs| > 0 {
      assert xs[|xs| - 1] < n;
      var init := xs[..|xs| - 1];
      assert forall i :: 0 <= i < |init| ==> init[i] < xs[|xs| - 1];
      IncreasingWithinBound(init, n - 1);
    }
  }

  /** A timestamp of the example below: 1900-01-01 12:00. */
  const ErosApproachTime: Timestamp := DateTime(1900, 1, 1, 12, 0)

  /** The NEO 433 Eros as its constructor builds it. */
  lemma ErosRecord()
    ensures NewNearEarthObject("433", "Eros", Finite(16.84), "N")
         == NearEarthObject("433", Some("Eros"), Some(16.84), false, [])
  {
    assert !IsSpace('E');
  }

  /** One NEO, 433 Eros, and one of its close approaches: after linking,
      the NEO found by designation lists the approach, and the approach
      references Eros. */
  lemma ErosExample()
    ensures var eros := NewNearEarthObject("433", "Eros", Finite(16.84), "N");
      var db := NewDatabase([eros], [CloseApproach("433", Some(ErosApproachTime), Some(0.15), Some(5.5), None)]);
      && GetNeoByDesignation(db, "433").Some?
      && GetNeoByDesignation(db, "433").value.approaches == [0]
      && db.approaches[0].neo.Some?
      && db.approaches[0].neo.value.name == Some("Eros")
  {
    ErosRecord();
    ErosLinked(NearEarthObject("433", Some("Eros"), Some(16.84), false, []),
               CloseApproach("433", Some(ErosApproachTime), Some(0.15), Some(5.5), None));
  }

  lemma ErosLinked(eros: NearEarthObject, approach: CloseApproach)
    requires eros == NearEarthObject("433", Some("Eros"), Some(16.84), false, [])
    requires approach == CloseApproach("433", Some(ErosApproachTime), Some(0.15), Some(5.5), None)
    ensures var db := NewDatabase([eros], [approach]);
      && GetNeoByDesignation(db, "433").Some?
      && GetNeoByDesignation(db, "433").value.approaches == [0]
      && db.approaches[0].neo.Some?
      && db.approaches[0].neo.value.name == Some("Eros")
  {
    ErosListsApproach(eros, approach);
    ErosReferenced(eros, approach);
  }

  lemma ErosListsApproach(eros: NearEarthObject, approach: CloseApproach)
    requires eros == NearEarthObject("433", Some("Eros"), Some(16.84), false, [])
    requires approach == CloseApproach("433", Some(ErosApproachTime), Some(0.15), Some(5.5), None)
    ensures var db := NewDatabase([eros], [approach]);
      && GetNeoByDesignation(db, "433").Some?
      && GetNeoByDesignation(db, "433").value.approaches == [0]
  {
    var db := NewDatabase([eros], [approach]);
    NeoApproachesInOrder([eros], [approach], 0);
    FindsEveryDesignation(db, 0);
    var listed := db.neos[0].approaches;
    assert 0 in listed;
    assert forall i :: 0 <= i < |listed| ==> listed[i] in listed;
    IncreasingWithinBound(listed, 1);
    assert listed == [0];
  }

  lemma ErosReferenced(eros: NearEarthObject, approach: CloseApproach)
    requires eros == NearEarthObject("433", Some("Eros"), Some(16.84), false, [])
    requires approach == CloseApproach("433", Some(ErosApproachTime), Some(0.15), Some(5.5), None)
    ensures var db := NewDatabase([eros], [approach]);
      && db.approaches[0].neo.Some?
      && db.approaches[0].neo.value.name == Some("Eros")
  {
    var db := NewDatabase([eros], [approach]);
    assert HasNeo([eros], approach.designation);
    var linked := LinkNeos([eros], [approach]);
    assert db.approaches[0] == LinkApproach([eros], linked, approach);
    assert |linked| == 1 && linked[0].name == Some("Eros");
    assert db.approaches[0].neo.value in linked;
    assert db.approaches[0].neo.value == linked[0];
  }

  /** database.py:97 as written: the designation goes through
      `str.capitalize()` before the lookup. `Capitalize` maps ASCII letters
      only, while Python maps every cased character (and may change the
      length, as `'ß'` becomes `'Ss'`); the two agree on the ASCII keys the
      lemmas below use. */
  function GetNeoByDesignationAsWritten(db: Database, designation: string): (r: Option<NearEarthObject>)
    ensures r.Some? ==> r.value in db.neos && r.value.designation == Capitalize(designation)
  {
    GetNeoByDesignation(db, Capitalize(designation))
  }

  /** database.py:116 as written: the name goes through `str.capitalize()`
      before the lookup, with the same ASCII-only case mapping. */
  function GetNeoByNameAsWritten(db: Database, name: string): (r: Option<NearEarthObject>)
    ensures r.Some? ==> r.value in db.neos && r.value.name == Some(Capitalize(name))
  {
    GetNeoByName(db, Capitalize(name))
  }

  /** A designation with a capital letter after its first character is
      lower-cased by the lookup as written, which then misses the NEO that
      the exact lookup finds. */
  lemma CapitalizedDesignationMisses()
    ensures var neo := NearEarthObject("2019 SC8", None, None, false, []);
      var db := NewDatabase([neo], []);
      && GetNeoByDesignation(db, "2019 SC8") == Some(neo)
      && GetNeoByDesignationAsWritten(db, "2019 SC8").None?
  {
    var neo := NearEarthObject("2019 SC8", None, None, false, []);
    var db := NewDatabase([neo], []);
    assert db.neos == [neo];
    FindsEveryDesignation(db, 0);
    var key := Capitalize("2019 SC8");
    assert key[5] == 's';
    assert key != "2019 SC8";
  }

  /** The same for a name with two capitals. */
  lemma CapitalizedNameMisses()
    ensures var neo := NearEarthObject("2101", Some("Adonis Ab"), None, false, []);
      var db := NewDatabase([neo], []);
      && GetNeoByName(db, "Adonis Ab") == Some(neo)
      && GetNeoByNameAsWritten(db, "Adonis Ab").None?
  {
    var neo := NearEarthObject("2101", Some("Adonis Ab"), None, false, []);
    var db := NewDatabase([neo], []);
    assert db.neos == [neo];
    FindsEveryName(db, 0);
    var key := Capitalize("Adonis Ab");
    assert key[7] == 'a';
    assert key != "Adonis Ab";
  }

  /** database.py:134-141 as written. The lambda at database.py:137 returns
      the approach itself, which is always true, so the filters are never
      called and every approach is yielded; the loop at database.py:140-141
      is the `else` of that `for`, so it runs once the first loop ends and
      yields every approach a second time; and with no filter nothing at
      all is yielded. */
  function QueryAsWritten(db: Database, filters: seq<Filter>): (r: Stream<CloseApproach, FilterError>)
    ensures filters == [] ==> r.items == []
    ensures filters != [] ==> |r.items| == 2 * |db.approaches|
    ensures filters != [] ==> forall j :: 0 <= j < |db.approaches| ==>
      r.items[j] == db.approaches[j] && r.items[|db.approaches| + j] == db.approaches[j]
  {
    if filters != [] then Stream(db.approaches + db.approaches, None) else Stream([], None)
  }

  /** One close approach at 0.15 au and the filter "distance at least 1 au":
      as written, the query yields the approach twice, while the documented
      query yields nothing; and with no filter the query as written yields
      nothing, where every approach is documented. */
  lemma QueryAsWrittenIgnoresFilters()
    ensures var a := CloseApproach("433", None, Some(0.15), None, None);
      var db := NewDatabase([], [a]);
      && QueryAsWritten(db, [DistanceFilter(Ge, 1.0)]).items == [a, a]
      && Query(db, [DistanceFilter(Ge, 1.0)]).items == []
      && QueryAsWritten(db, []).items == []
      && Query(db, []).items == [a]
  {
    var a := CloseApproach("433", None, Some(0.15), None, None);
    var db := NewDatabase([], [a]);
    assert !HasNeo([], a.designation);
    assert db.approaches == [a];
    assert Call(DistanceFilter(Ge, 1.0), a) == Ok(false);
    assert AllPass([DistanceFilter(Ge, 1.0)], a) == Ok(false);
  }
}
