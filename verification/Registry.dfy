/** The list of worlds: validation of its raw entries and lookup by display position. */
module Registry {
  import opened Wrappers
  import opened Text

  datatype Entry = Entry(slug: string, name: string, short: string)

  datatype World = World(slug: string, name: string, description: string)

  datatype Problem = EmptySlug | EmptyName | EmptyShort | DuplicateSlug(slug: string)

  datatype Parsed = Worlds(worlds: seq<World>) | Invalid(position: nat, problem: Problem)

  datatype Loaded = Registry(worlds: seq<World>) | ParseFailed(position: nat, problem: Problem) | EmptyRegistry

  function Clean(e: Entry): World {
    World(Trim(e.slug), Trim(e.name), Trim(e.short))
  }

  ghost predicate SlugSeenBefore(entries: seq<Entry>, i: nat)
    requires i < |entries|
  {
    exists j :: 0 <= j < i && Trim(entries[j].slug) == Trim(entries[i].slug)
  }

  /** The first check entry `i` fails, in the order the checks are made. */
  ghost function ProblemAt(entries: seq<Entry>, i: nat): Option<Problem>
    requires i < |entries|
  {
    var w := Clean(entries[i]);
    if w.slug == [] then Some(EmptySlug)
    else if w.name == [] then Some(EmptyName)
    else if w.description == [] then Some(EmptyShort)
    else if SlugSeenBefore(entries, i) then Some(DuplicateSlug(w.slug))
    else None
  }

  /** Which entry has which problem, check by check. */
  lemma ProblemTable(entries: seq<Entry>, i: nat)
    requires i < |entries|
    ensures var e := entries[i];
            var duplicate := exists j :: 0 <= j < i && Trim(entries[j].slug) == Trim(e.slug);
            && (ProblemAt(entries, i) == Some(EmptySlug) <==> Trim(e.slug) == [])
            && (ProblemAt(entries, i) == Some(EmptyName) <==> Trim(e.slug) != [] && Trim(e.name) == [])
            && (ProblemAt(entries, i) == Some(EmptyShort) <==> Trim(e.slug) != [] && Trim(e.name) != [] && Trim(e.short) == [])
            && (ProblemAt(entries, i) == Some(DuplicateSlug(Trim(e.slug))) <==>
                Trim(e.slug) != [] && Trim(e.name) != [] && Trim(e.short) != [] && duplicate)
            && (ProblemAt(entries, i) == None <==>
                Trim(e.slug) != [] && Trim(e.name) != [] && Trim(e.short) != [] && !duplicate)
  {
  }

  ghost predicate NoProblemBefore(entries: seq<Entry>, n: nat)
    requires n <= |entries|
  {
    forall i :: 0 <= i < n ==> ProblemAt(entries, i) == None
  }

  /**
    Validation keeps every entry, trimmed and in order, or names the first offending position
    (counted from one) and the first check it fails.
   */
  method ParseWorlds(entries: seq<Entry>) returns (r: Parsed)
    ensures match r
            case Worlds(worlds) =>
              && NoProblemBefore(entries, |entries|)
              && |worlds| == |entries|
              && forall i :: 0 <= i < |entries| ==>
                   worlds[i] == World(Trim(entries[i].slug), Trim(entries[i].name), Trim(entries[i].short))
            case Invalid(position, problem) =>
              && 1 <= position <= |entries|
              && NoProblemBefore(entries, position - 1)
              && ProblemAt(entries, position - 1) == Some(problem)
  {
    var slugs: set<string> := {};
    var worlds: seq<World> := [];
    for i := 0 to |entries|
      invariant slugs == set j | 0 <= j < i :: Trim(entries[j].slug)
      invariant |worlds| == i && forall j :: 0 <= j < i ==> worlds[j] == Clean(entries[j])
      invariant NoProblemBefore(entries, i)
    {
      var w := Clean(entries[i]);
      if w.slug == [] {
        return Invalid(i + 1, EmptySlug);
      }
      if w.name == [] {
        return Invalid(i + 1, EmptyName);
      }
      if w.description == [] {
        return Invalid(i + 1, EmptyShort);
      }
      if w.slug in slugs {
        return Invalid(i + 1, DuplicateSlug(w.slug));
      }
      slugs := slugs + {w.slug};
      worlds := worlds + [w];
    }
    return Worlds(worlds);
  }

  /** The checks pass exactly when all fields are present and the trimmed slugs are pairwise distinct. */
  lemma ValidationIsExact(entries: seq<Entry>)
    ensures NoProblemBefore(entries, |entries|) <==>
            && (forall i :: 0 <= i < |entries| ==>
                  Trim(entries[i].slug) != [] && Trim(entries[i].name) != [] && Trim(entries[i].short) != [])
            && (forall i, j :: 0 <= i < j < |entries| ==> Trim(entries[i].slug) != Trim(entries[j].slug))
  {
    if NoProblemBefore(entries, |entries|) {
      forall i, j | 0 <= i < j < |entries|
        ensures Trim(entries[i].slug) != Trim(entries[j].slug)
      {
        assert ProblemAt(entries, j) == None;
      }
      forall i | 0 <= i < |entries|
        ensures Trim(entries[i].slug) != [] && Trim(entries[i].name) != [] && Trim(entries[i].short) != []
      {
        assert ProblemAt(entries, i) == None;
      }
    }
  }

  /** Loading also refuses a list without any world. */
  method Load(entries: seq<Entry>) returns (r: Loaded)
    ensures r.Registry? <==> entries != [] && NoProblemBefore(entries, |entries|)
    ensures r.EmptyRegistry? <==> entries == []
    ensures r.Registry? ==>
              && |r.worlds| == |entries|
              && forall i :: 0 <= i < |entries| ==>
                   r.worlds[i] == World(Trim(entries[i].slug), Trim(entries[i].name), Trim(entries[i].short))
    ensures r.ParseFailed? ==>
              && 1 <= r.position <= |entries| && NoProblemBefore(entries, r.position - 1)
              && ProblemAt(entries, r.position - 1) == Some(r.problem)
  {
    var parsed := ParseWorlds(entries);
    match parsed
    case Invalid(position, problem) =>
      return ParseFailed(position, problem);
    case Worlds(worlds) =>
      return if worlds == [] then EmptyRegistry else Registry(worlds);
  }

  /** The world shown at a display position, counted from one. */
  function GetByPosition(worlds: seq<World>, n: nat): Option<World> {
    if n == 0 || n > |worlds| then None else Some(worlds[n - 1])
  }
}
