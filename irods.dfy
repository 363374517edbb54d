/** The iRODS helpers of loader/util/irods.py over a model of the data
    store: the set of collections and, for every data object, its checksum.
    The client session is the store object itself. */
module Irods {
  import opened Wrappers
  import opened Strings
  import opened Paths

  class IrodsStore {
    var collections: set<string>
    /** Data object path to checksum. */
    var objects: map<string, string>

    constructor(collections: set<string>, objects: map<string, string>)
      ensures this.collections == collections && this.objects == objects
    {
      this.collections := collections;
      this.objects := objects;
    }

    /** `irods_create_collection`: the missing collections are created from
        the front of the list; `created` is the order of creation. */
    method CreateCollection(target: string) returns (created: seq<string>)
      modifies this
      ensures created == MissingChain(old(collections), target)
      ensures collections == old(collections) + set c | c in created
      ensures objects == old(objects)
    {
      var pending := MissingCollections(collections, target);
      ghost var chain := pending;
      created := [];
      while |pending| > 0
        invariant created + pending == chain
        invariant collections == old(collections) + set c | c in created
        invariant objects == old(objects)
      {
        var path := pending[0];
        MoveFront(created, pending);
        pending := pending[1..];
        collections := collections + {path};
        created := created + [path];
      }
    }

    /** `irods_data_object_checksums_match`: fetching a missing object
        raises, so the answer exists only when both objects do. */
    function ChecksumsMatch(path1: string, path2: string): (r: Result<bool>)
      reads this
      ensures r.Ok? <==> path1 in objects && path2 in objects
      ensures r.Ok? ==> (r.value <==> objects[path1] == objects[path2])
    {
      if path1 !in objects then Err("data object does not exist: " + path1)
      else if path2 !in objects then Err("data object does not exist: " + path2)
      else Ok(objects[path1] == objects[path2])
    }

    /** `irods_copy`: a forced copy; a missing source raises. */
    method Copy(source: string, dest: string) returns (ok: bool)
      modifies this
      ensures ok <==> source in old(objects)
      ensures ok ==> objects == old(objects)[dest := old(objects)[source]]
      ensures !ok ==> objects == old(objects)
      ensures collections == old(collections)
    {
      if source !in objects {
        return false;
      }
      objects := objects[dest := objects[source]];
      ok := true;
    }

    /** `irods_delete`: removing a missing data object is reported and is
        not an error. */
    method Delete(path: string) returns (existed: bool)
      modifies this
      ensures existed <==> path in old(objects)
      ensures objects == old(objects) - {path}
      ensures !existed ==> objects == old(objects)
      ensures collections == old(collections)
    {
      existed := path in objects;
      objects := objects - {path};
    }

    /** `irods_delete_collection`: the collection goes with everything under
        it; removing a missing collection is reported and is not an
        error. */
    method DeleteCollection(path: string) returns (existed: bool)
      modifies this
      ensures existed <==> path in old(collections)
      ensures existed ==> collections == set c | c in old(collections) && !Within(path, c)
      ensures existed ==> objects == map p | p in old(objects) && !StartsWith(p, path + "/") :: old(objects)[p]
      ensures !existed ==> collections == old(collections) && objects == old(objects)
    {
      existed := path in collections;
      if existed {
        collections := set c | c in collections && !Within(path, c);
        objects := map p | p in objects && !StartsWith(p, path + "/") :: objects[p];
      }
    }

    /** The upload that `irods_put` performs: the object gets the local
        file's checksum. */
    method Put(target: string, checksum: string)
      modifies this
      ensures objects == old(objects)[target := checksum]
      ensures collections == old(collections)
    {
      objects := objects[target := checksum];
    }
  }

  /** The first loop of `irods_create_collection`: walk up from the
      target putting every missing collection in front of the list,
      stopping at the first one that exists or when the split leaves no last
      component. */
  method MissingCollections(existing: set<string>, target: string) returns (pending: seq<string>)
    ensures pending == MissingChain(existing, target)
  {
    pending := [];
    var parent := target;
    var child := "just to get started";
    while |child| > 0
      invariant Climb(existing, parent, child, pending) == Climb(existing, target, "just to get started", [])
      decreases |parent| + |child|
    {
      if parent in existing {
        break;
      }
      pending := [parent] + pending;
      var split := PathSplit(parent);
      parent, child := split.0, split.1;
    }
    ClimbChain(existing, target, "just to get started", []);
  }

  /** The walk of the first loop from `parent`, with `child` the last
      component split off and `pending` the list so far. */
  function Climb(existing: set<string>, parent: string, child: string, pending: seq<string>): seq<string>
    decreases |parent| + |child|
  {
    if |child| == 0 || parent in existing then pending
    else
      var split := PathSplit(parent);
      Climb(existing, split.0, split.1, [parent] + pending)
  }

  /** The walk collects the missing chain of its start in front of what it
      was given. */
  lemma {:induction false} ClimbChain(existing: set<string>, parent: string, child: string, pending: seq<string>)
    ensures Climb(existing, parent, child, pending) ==
      (if |child| > 0 then MissingChain(existing, parent) else []) + pending
    decreases |parent| + |child|
  {
    if |child| > 0 && parent !in existing {
      var split := PathSplit(parent);
      ClimbChain(existing, split.0, split.1, [parent] + pending);
      MissingChainStep(existing, parent);
    }
  }

  /** Moving the head of `pending` to the end of `created`. */
  lemma MoveFront(created: seq<string>, pending: seq<string>)
    requires pending != []
    ensures (set c | c in created + [pending[0]]) == (set c | c in created) + {pending[0]}
    ensures created + [pending[0]] + pending[1..] == created + pending
  {
  }

  /** One step up from a missing collection. */
  lemma MissingChainStep(collections: set<string>, p: string)
    requires p !in collections
    ensures MissingChain(collections, p) ==
      (if PathSplit(p).1 == "" then [] else MissingChain(collections, PathSplit(p).0)) + [p]
  {
  }

  /** `c` is `path` or lies under it. */
  predicate Within(path: string, c: string) {
    c == path || StartsWith(c, path + "/")
  }

  /** The collections `irods_create_collection` creates for `p`, ancestors
      first: none when `p` exists; otherwise those of its parent (unless the
      split leaves no last component) followed by `p`. */
  function MissingChain(collections: set<string>, p: string): seq<string>
    decreases |p|
  {
    if p in collections then []
    else
      var split := PathSplit(p);
      if split.1 == "" then [p] else MissingChain(collections, split.0) + [p]
  }

  /** Nothing is created exactly when the target exists; otherwise the
      target is created last. */
  lemma MissingChainEnds(collections: set<string>, p: string)
    ensures var chain := MissingChain(collections, p);
      && (chain == [] <==> p in collections)
      && (chain != [] ==> chain[|chain| - 1] == p)
  {
  }

  /** Only missing collections are created. */
  lemma {:induction false} MissingChainMissing(collections: set<string>, p: string)
    ensures forall c :: c in MissingChain(collections, p) ==> c !in collections
    decreases |p|
  {
    if p !in collections && PathSplit(p).1 != "" {
      MissingChainMissing(collections, PathSplit(p).0);
    }
  }

  /** Ancestors come first: each created collection is the parent of the
      next one. */
  lemma {:induction false} MissingChainLinks(collections: set<string>, p: string)
    ensures var chain := MissingChain(collections, p);
      forall i :: 0 < i < |chain| ==> PathSplit(chain[i]).1 != "" && Dirname(chain[i]) == chain[i - 1]
    decreases |p|
  {
    if p !in collections {
      var split := PathSplit(p);
      if split.1 != "" {
        var h := split.0;
        MissingChainLinks(collections, h);
        MissingChainEnds(collections, h);
        var pre := MissingChain(collections, h);
        var chain := pre + [p];
        assert MissingChain(collections, p) == chain;
        forall i | 0 < i < |chain|
          ensures PathSplit(chain[i]).1 != "" && Dirname(chain[i]) == chain[i - 1]
        {
          if i < |chain| - 1 {
            assert chain[i] == pre[i] && chain[i - 1] == pre[i - 1];
          }
        }
      }
    }
  }

  /** The walk stops at the right place: the first created collection either
      has an existing parent or no parent left to walk to. */
  lemma {:induction false} MissingChainFirst(collections: set<string>, p: string)
    ensures var chain := MissingChain(collections, p);
      chain != [] ==> PathSplit(chain[0]).1 == "" || Dirname(chain[0]) in collections
    decreases |p|
  {
    if p !in collections {
      var split := PathSplit(p);
      if split.1 != "" {
        var h := split.0;
        MissingChainFirst(collections, h);
        var pre := MissingChain(collections, h);
        assert MissingChain(collections, p) == pre + [p];
        if pre != [] {
          assert (pre + [p])[0] == pre[0];
        }
      }
    }
  }

  /** After the creates the target exists, and so does every collection on
      the way up to the nearest existing one. */
  lemma CreatedCoversTarget(collections: set<string>, p: string)
    ensures p in collections + set c | c in MissingChain(collections, p)
  {
    MissingChainEnds(collections, p);
    var chain := MissingChain(collections, p);
    if chain != [] {
      assert chain[|chain| - 1] == p;
    }
  }
}
