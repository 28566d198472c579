/** The package metadata cache of brew/infoCache.go: records decoded from the
    output of the command `Refresh` is given and kept in the bucket "brew" of a
    bolt database, keyed by full name. JSON encoding and decoding of a stored
    record is the identity here. */
module Brew {
  import opened Wrappers

  /** One package's metadata, cut down to its key and its four dependency lists. */
  datatype Info = Info(
    FullName: string,
    Dependencies: seq<string>,
    RecommendedDependencies: seq<string>,
    OptionalDependencies: seq<string>,
    BuildDependencies: seq<string>)

  /** Go's zero value `Info{}`. */
  const ZeroInfo := Info("", [], [], [], [])

  /** The errors `Refresh` and `Find` return. The texts of the command, decode,
      transaction and put errors come from libraries and are carried as they are;
      only a failure of `CreateBucketIfNotExists` is wrapped ("create bucket: ..."). */
  datatype CacheError =
    | CommandFailed(msg: string)
    | CreateBucket(msg: string)
    | UpdateFailed(msg: string)
    | DecodeFailed(msg: string)
    | PutFailed(msg: string)
    | CouldNotFindPackageInfo(name: string)

  /** How the bucket-creating transaction ends: committed, refused by
      `CreateBucketIfNotExists`, or failed by bolt itself when it begins or
      commits the transaction. Either failure rolls the transaction back. */
  datatype CreateOutcome = Created | BucketRefused(msg: string) | TxFailed(msg: string)

  /** Expansion policies of the dependency resolver (`brew.AddPackageOnly` ...). */
  datatype Policy = AddPackageOnly | AddPackageAndRequired | AddAll

  /** A requested or resolved manifest entry (`brew.Entry`). */
  datatype Entry = Entry(Name: string, RestartService: string, Args: seq<string>)

  /** The full names of the records in `infos`. */
  function Names(infos: seq<Info>): set<string>
  {
    set i | 0 <= i < |infos| :: infos[i].FullName
  }

  /** Adding a record at the end adds its name. */
  lemma NamesSnoc(infos: seq<Info>)
    requires infos != []
    ensures Names(infos) == Names(infos[..|infos| - 1]) + {infos[|infos| - 1].FullName}
  {
    var init := infos[..|infos| - 1];
    forall k | k in Names(infos) ensures k in Names(init) + {infos[|infos| - 1].FullName} {
      var i :| 0 <= i < |infos| && infos[i].FullName == k;
      if i < |infos| - 1 { assert init[i] == infos[i]; }
    }
    forall k | k in Names(init) ensures k in Names(infos) {
      var i :| 0 <= i < |init| && init[i].FullName == k;
      assert infos[i] == init[i];
    }
  }

  /** The bucket after putting each record of `infos`, in order, under its full
      name. Nothing is deleted: the keys are the old keys plus the names put. */
  function PutAll(m: map<string, Info>, infos: seq<Info>): (r: map<string, Info>)
    ensures r.Keys == m.Keys + Names(infos)
  {
    if infos == [] then m
    else
      var last := infos[|infos| - 1];
      NamesSnoc(infos);
      PutAll(m, infos[..|infos| - 1])[last.FullName := last]
  }

  /** How many records the put loop stores before the first failing put: all of
      them when no put fails. */
  function StoredCount(infos: seq<Info>, putFailure: (nat, Info) -> Option<string>, from: nat): (n: nat)
    requires from <= |infos|
    ensures from <= n <= |infos|
    ensures forall j :: from <= j < n ==> putFailure(j, infos[j]).None?
    ensures n < |infos| ==> putFailure(n, infos[n]).Some?
    decreases |infos| - from
  {
    if from == |infos| || putFailure(from, infos[from]).Some? then from
    else StoredCount(infos, putFailure, from + 1)
  }

  /** The bolt database, reduced to whether bucket "brew" exists and what it holds. */
  class Store {
    var hasBrewBucket: bool
    var brew: map<string, Info>

    ghost predicate Valid()
      reads this
    {
      !hasBrewBucket ==> brew == map[]
    }

    /** A database without the bucket. */
    constructor ()
      ensures Valid() && !hasBrewBucket
    {
      hasBrewBucket := false;
      brew := map[];
    }
  }

  /** `InfoCache`, the slice of records last decoded. */
  class InfoCache {
    var infos: seq<Info>

    /** The zero value, an empty slice. */
    constructor ()
      ensures infos == []
    {
      infos := [];
    }

    /** Runs the query command (its result is `output`), creates bucket "brew"
        (`create` is how that transaction ends), decodes the output with `decode`
        into this slice, then puts each record in its own transaction
        (`putFailure(i, r)` is the error of the i-th put or of its transaction,
        if any), stopping at the first error. */
    method Refresh(db: Store, output: Result<string, string>, create: CreateOutcome,
                   decode: string -> Result<seq<Info>, string>,
                   putFailure: (nat, Info) -> Option<string>)
      returns (err: Option<CacheError>)
      requires db.Valid()
      modifies this, db
      ensures db.Valid()
      ensures output.Failure? ==>
        err == Some(CommandFailed(output.error)) && unchanged(db) && infos == old(infos)
      ensures output.Success? && create.BucketRefused? ==>
        err == Some(CreateBucket(create.msg)) && unchanged(db) && infos == old(infos)
      ensures output.Success? && create.TxFailed? ==>
        err == Some(UpdateFailed(create.msg)) && unchanged(db) && infos == old(infos)
      ensures output.Success? && create.Created? ==> db.hasBrewBucket
      ensures output.Success? && create.Created? && decode(output.value).Failure? ==>
        err == Some(DecodeFailed(decode(output.value).error)) && db.brew == old(db.brew) && infos == old(infos)
      ensures output.Success? && create.Created? && decode(output.value).Success? ==>
        var list := decode(output.value).value;
        var n := StoredCount(list, putFailure, 0);
        && infos == list
        && db.brew == PutAll(old(db.brew), list[..n])
        && (n == |list| ==> err.None?)
        && (n < |list| ==> err == Some(PutFailed(putFailure(n, list[n]).value)))
    {
      if output.Failure? {
        return Some(CommandFailed(output.error));
      }
      match create {
        case BucketRefused(msg) => return Some(CreateBucket(msg));
        case TxFailed(msg) => return Some(UpdateFailed(msg));
        case Created =>
      }
      db.hasBrewBucket := true;
      var decoded := decode(output.value);
      if decoded.Failure? {
        return Some(DecodeFailed(decoded.error));
      }
      infos := decoded.value;
      var list := infos;
      ghost var n := StoredCount(list, putFailure, 0);
      var i := 0;
      while i < |list|
        invariant 0 <= i <= n
        invariant db.hasBrewBucket && infos == list
        invariant db.brew == PutAll(old(db.brew), list[..i])
      {
        var failure := putFailure(i, list[i]);
        if failure.Some? {
          return Some(PutFailed(failure.value));
        }
        assert list[..i + 1][..i] == list[..i];
        db.brew := db.brew[list[i].FullName := list[i]];
        i := i + 1;
      }
      assert list[..i] == list;
      return None;
    }

    /** Looks `pkg` up in bucket "brew". */
    method Find(pkg: string, db: Store) returns (info: Info, err: Option<CacheError>)
      requires db.hasBrewBucket
      ensures pkg in db.brew ==> info == db.brew[pkg] && err == None
      ensures pkg !in db.brew ==> info == ZeroInfo && err == Some(CouldNotFindPackageInfo(pkg))
    {
      if pkg !in db.brew {
        return ZeroInfo, Some(CouldNotFindPackageInfo(pkg));
      }
      return db.brew[pkg], None;
    }
  }

  /** A key whose name is not among the records put keeps its old value. */
  lemma {:induction false} PutAllKeepsOthers(m: map<string, Info>, infos: seq<Info>, k: string)
    requires k in m
    requires forall i :: 0 <= i < |infos| ==> infos[i].FullName != k
    ensures k in PutAll(m, infos) && PutAll(m, infos)[k] == m[k]
  {
    if infos != [] {
      PutAllKeepsOthers(m, infos[..|infos| - 1], k);
    }
  }

  /** When several records share a full name, the store holds the last of them. */
  lemma {:induction false} PutAllLastWins(m: map<string, Info>, infos: seq<Info>, i: nat)
    requires i < |infos|
    requires forall j :: i < j < |infos| ==> infos[j].FullName != infos[i].FullName
    ensures infos[i].FullName in PutAll(m, infos)
    ensures PutAll(m, infos)[infos[i].FullName] == infos[i]
  {
    if i < |infos| - 1 {
      PutAllLastWins(m, infos[..|infos| - 1], i);
    }
  }

  /** Putting `a` then `b` is putting `a + b`: a refresh that stops after a prefix
      leaves exactly that prefix applied. */
  lemma {:induction false} PutAllAppend(m: map<string, Info>, a: seq<Info>, b: seq<Info>)
    ensures PutAll(m, a + b) == PutAll(PutAll(m, a), b)
  {
    if b == [] {
      assert a + b == a;
    } else {
      assert (a + b)[..|a + b| - 1] == a + b[..|b| - 1];
      PutAllAppend(m, a, b[..|b| - 1]);
    }
  }

  /** Refreshing twice with the same records changes nothing the second time. */
  lemma PutAllIdempotent(m: map<string, Info>, infos: seq<Info>)
    ensures PutAll(PutAll(m, infos), infos) == PutAll(m, infos)
  {
    var once := PutAll(m, infos);
    var twice := PutAll(once, infos);
    forall k | k in twice ensures twice[k] == once[k] {
      if k in Names(infos) {
        var i := LastIndexOf(infos, k);
        PutAllLastWins(m, infos, i);
        PutAllLastWins(once, infos, i);
      } else {
        PutAllKeepsOthers(once, infos, k);
      }
    }
  }

  /** The position of the last record named `k`. */
  function LastIndexOf(infos: seq<Info>, k: string): (i: nat)
    requires k in Names(infos)
    ensures i < |infos| && infos[i].FullName == k
    ensures forall j :: i < j < |infos| ==> infos[j].FullName != k
  {
    var last := infos[|infos| - 1];
    if last.FullName == k then |infos| - 1
    else
      var init := infos[..|infos| - 1];
      assert k in Names(init) by {
        var i :| 0 <= i < |infos| && infos[i].FullName == k;
        assert init[i] == infos[i];
      }
      LastIndexOf(init, k)
  }
}
