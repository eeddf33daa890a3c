/** Looking entries up by name and iterating over those whose name matches. */
module ZipIteration {
  import opened Bytes
  import opened ZipErrors
  import opened ZipDirectory
  import opened ZipArchive
  import CdEntryMap

  method Lookup(a: Archive, index: CdEntryMap.Index, name: Name, ghost z: Opened) returns (r: Result<ZipEntry>)
    requires Sound(a, index) && z == Opened(a, index.Contents())
    ensures r == FindEntry(z, name)
  {
    if name == [] || |name| > U16_MAX {
      return Err(ZipError.InvalidEntryName);
    }
    var found, offset := index.GetCdEntryOffset(name, a.cd);
    if !found {
      return Err(EntryNotFound);
    }
    return FindEntryAt(a, name, offset);
  }

  ghost function Matching(names: set<Name>, matcher: Name -> bool): (s: set<Name>) {
    set n | n in names && matcher(n)
  }

  datatype Step = Found(name: Name, entry: ZipEntry) | Failed(name: Name, error: ZipError) | End

  function Outcome(name: Name, r: Result<ZipEntry>): (s: Step) {
    match r
    case Ok(e) => Found(name, e)
    case Err(e) => Failed(name, e)
  }

  lemma MatchingSkips(names: set<Name>, matcher: Name -> bool, name: Name)
    ensures matcher(name) ==> Matching(names - {name}, matcher) == Matching(names, matcher) - {name}
    ensures !matcher(name) ==> Matching(names - {name}, matcher) == Matching(names, matcher)
  {}

  /** Skip to the next matching name. */
  method NextMatch(cd: seq<byte>, index: CdEntryMap.Index, matcher: Name -> bool) returns (found: bool, name: Name, offset: nat)
    requires index.Valid(cd) && index.Exact() && index.Pending() <= index.Contents().Keys
    modifies index.Repr()
    ensures index.Valid(cd) && index.Exact() && index.Contents() == old(index.Contents()) && index.Pending() <= index.Contents().Keys
    ensures !found ==> Matching(old(index.Pending()), matcher) == {}
    ensures found ==> name in Matching(old(index.Pending()), matcher) && offset == index.Contents()[name]
    ensures found ==> Matching(index.Pending(), matcher) == Matching(old(index.Pending()), matcher) - {name}
  {
    ghost var all, pending, wanted := index.Contents(), index.Pending(), Matching(index.Pending(), matcher);
    name, offset := index.Next(cd);
    while offset != 0
      invariant index.Valid(cd) && index.Exact() && index.Contents() == all
      invariant pending <= all.Keys && Matching(pending, matcher) == wanted
      invariant pending == {} ==> offset == 0 && index.Pending() == {}
      invariant pending != {} ==> name in pending && offset == all[name] != 0 && index.Pending() == pending - {name}
      decreases |pending|
    {
      MatchingSkips(pending, matcher, name);
      if matcher(name) {
        return true, name, offset;
      }
      pending := pending - {name};
      name, offset := index.Next(cd);
    }
    return false, [], 0;
  }

  /** `s` is what the lookup of its own name yields. */
  ghost predicate Resolves(a: Archive, all: map<Name, nat>, s: Step)
    requires WellIndexed(a.cd, all) && !s.End?
  {
    s.name in all && s == Outcome(s.name, FindEntryAt(a, s.name, all[s.name]))
  }

  method Resolve(a: Archive, name: Name, offset: nat, ghost all: map<Name, nat>) returns (s: Step)
    requires WellIndexed(a.cd, all) && name in all && offset == all[name]
    ensures !s.End? && s.name == name && Resolves(a, all, s)
  {
    s := Outcome(name, FindEntryAt(a, name, offset));
  }

  /** The next matching entry of an index with the contents `all`. Each call uses up one matching name; with
      none left the iteration ends and starts over. */
  method Next(a: Archive, index: CdEntryMap.Index, matcher: Name -> bool, ghost all: map<Name, nat>) returns (s: Step)
    requires index.Valid(a.cd) && index.Exact() && index.Contents() == all && index.Pending() <= all.Keys
    requires WellIndexed(a.cd, all)
    modifies index.Repr()
    ensures index.Valid(a.cd) && index.Exact() && index.Contents() == all && index.Pending() <= all.Keys
    ensures s.End? <==> Matching(old(index.Pending()), matcher) == {}
    ensures s.End? ==> index.Pending() == all.Keys
    ensures !s.End? ==>
      && s.name in Matching(old(index.Pending()), matcher)
      && Matching(index.Pending(), matcher) == Matching(old(index.Pending()), matcher) - {s.name}
      && Resolves(a, all, s)
  {
    var found, name, offset := NextMatch(a.cd, index, matcher);
    if found {
      s := Resolve(a, name, offset, all);
      return;
    }
    index.ResetIteration(a.cd);
    return End;
  }

  /** `names` lists, without repetition, the wanted names that are not left over. */
  ghost predicate Collected(names: seq<Name>, wanted: set<Name>, left: set<Name>) {
    && (forall i, j :: 0 <= i < j < |names| ==> names[i] != names[j])
    && left <= wanted && forall n :: n in names <==> n in wanted && n !in left
  }

  lemma CollectOne(names: seq<Name>, wanted: set<Name>, left: set<Name>, name: Name)
    requires Collected(names, wanted, left) && name in left
    ensures Collected(names + [name], wanted, left - {name})
  {}

  ghost predicate Locatable(a: Archive, index: map<Name, nat>, name: Name)
    requires WellIndexed(a.cd, index)
  {
    name in index ==> FindEntryAt(a, name, index[name]).Ok?
  }

  lemma ResolvesIffLocatable(a: Archive, all: map<Name, nat>, s: Step)
    requires WellIndexed(a.cd, all) && !s.End? && Resolves(a, all, s)
    ensures s.Found? <==> Locatable(a, all, s.name)
  {}

  /** The names delivered so far, all of which could be read. */
  ghost predicate Listing(a: Archive, all: map<Name, nat>, names: seq<Name>, wanted: set<Name>, left: set<Name>)
    requires WellIndexed(a.cd, all)
  {
    Collected(names, wanted, left) && forall n :: n in names ==> Locatable(a, all, n)
  }

  lemma ListOneMore(a: Archive, all: map<Name, nat>, names: seq<Name>, wanted: set<Name>, left: set<Name>, name: Name)
    requires WellIndexed(a.cd, all) && Listing(a, all, names, wanted, left) && name in left && Locatable(a, all, name)
    ensures Listing(a, all, names + [name], wanted, left - {name})
  {
    CollectOne(names, wanted, left, name);
  }

  /** One turn of an iteration: a further name, the end, or a failure on a wanted name. */
  method ListStep(a: Archive, index: CdEntryMap.Index, matcher: Name -> bool, ghost all: map<Name, nat>,
                  names: seq<Name>, ghost wanted: set<Name>, ghost left: set<Name>)
    returns (s: Step, longer: seq<Name>, ghost rest: set<Name>)
    requires index.Valid(a.cd) && index.Exact() && index.Contents() == all && index.Pending() <= all.Keys && WellIndexed(a.cd, all)
    requires left == Matching(index.Pending(), matcher) && Listing(a, all, names, wanted, left)
    modifies index.Repr()
    ensures index.Valid(a.cd) && index.Exact() && index.Contents() == all && index.Pending() <= all.Keys
    ensures !s.Found? ==> longer == names
    ensures s.Found? ==> rest == Matching(index.Pending(), matcher) && |rest| < |left| && Listing(a, all, longer, wanted, rest)
    ensures s.End? ==> left == {}
    ensures s.Failed? ==> s.name in left && Resolves(a, all, s) && !Locatable(a, all, s.name)
  {
    s := Next(a, index, matcher, all);
    longer, rest := names, left;
    if !s.End? { ResolvesIffLocatable(a, all, s); }
    if s.Found? {
      ListOneMore(a, all, names, wanted, left, s.name);
      longer, rest := names + [s.name], left - {s.name};
    }
  }

  /** The names an iteration delivers, and how it stops: each name is delivered once, matches and can be read.
      It runs to the end, with every matching name, exactly if all of them can be read; otherwise it stops at
      a further matching name with the error of that name's entry. */
  ghost predicate Iterates(a: Archive, all: map<Name, nat>, matcher: Name -> bool, names: seq<Name>, last: Step)
    requires WellIndexed(a.cd, all)
  {
    var wanted := Matching(all.Keys, matcher);
    && !last.Found? && (forall i, j :: 0 <= i < j < |names| ==> names[i] != names[j])
    && (forall n :: n in names ==> n in wanted && Locatable(a, all, n))
    && (last.End? ==> forall n :: n in wanted ==> n in names)
    && (last.Failed? ==> last.name in wanted && last.name !in names && Resolves(a, all, last))
    && (last.End? <==> forall n :: n in wanted ==> Locatable(a, all, n))
  }

  lemma StopsIterating(a: Archive, all: map<Name, nat>, matcher: Name -> bool, names: seq<Name>, last: Step, left: set<Name>)
    requires WellIndexed(a.cd, all) && Listing(a, all, names, Matching(all.Keys, matcher), left) && !last.Found?
    requires last.End? ==> left == {}
    requires last.Failed? ==> last.name in left && Resolves(a, all, last) && !Locatable(a, all, last.name)
    ensures Iterates(a, all, matcher, names, last)
  {}

  /** Start an iteration and call `Next` until it does not deliver an entry. */
  method ListMatching(a: Archive, index: CdEntryMap.Index, matcher: Name -> bool, ghost all: map<Name, nat>)
    returns (names: seq<Name>, last: Step)
    requires Sound(a, index) && index.Contents() == all
    modifies index.Repr()
    ensures index.Valid(a.cd) && index.Exact() && index.Contents() == all
    ensures Iterates(a, all, matcher, names, last)
  {
    index.ResetIteration(a.cd);
    ghost var wanted := Matching(all.Keys, matcher);
    ghost var left := wanted;
    names := [];
    while true
      invariant index.Valid(a.cd) && index.Exact() && index.Contents() == all && index.Pending() <= all.Keys
      invariant left == Matching(index.Pending(), matcher) && Listing(a, all, names, wanted, left)
      decreases |left|
    {
      ghost var before := left;
      last, names, left := ListStep(a, index, matcher, all, names, wanted, left);
      if !last.Found? {
        StopsIterating(a, all, matcher, names, last, before);
        return;
      }
    }
  }

  // ----- any file -----

  lemma LookupUnfolds(file: seq<byte>, name: Name, z: Opened)
    requires Open(file) == Ok(z)
    ensures WellIndexed(z.archive.cd, z.index) && LookupIn(file, name) == FindEntry(z, name)
  {
    OpenedWellIndexed(file);
  }

  /** Opening any file and looking up any name answers as the reference does. */
  method OpenAndLookup(file: seq<byte>, hash: Name -> nat, name: Name) returns (r: Result<ZipEntry>)
    requires Reliable(file)
    ensures r == LookupIn(file, name)
  {
    var handle := OpenArchive(file, hash);
    if handle.Err? {
      return Err(handle.error);
    }
    ghost var z := Open(file).value;
    LookupUnfolds(file, name, z);
    r := Lookup(handle.value.0, handle.value.1, name, z);
  }

  /** Opening any file and iterating. */
  method OpenAndList(file: seq<byte>, hash: Name -> nat, matcher: Name -> bool) returns (error: Option<ZipError>, names: seq<Name>, last: Step)
    requires Reliable(file)
    ensures Open(file).Err? ==> error == Some(Open(file).error)
    ensures Open(file).Ok? ==>
      && error == None && WellIndexed(Open(file).value.archive.cd, Open(file).value.index)
      && Iterates(Open(file).value.archive, Open(file).value.index, matcher, names, last)
  {
    var z := OpenArchive(file, hash);
    if z.Err? {
      return Some(z.error), [], End;
    }
    error := None;
    names, last := ListMatching(z.value.0, z.value.1, matcher, Open(file).value.index);
  }
}
