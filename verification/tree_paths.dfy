/**
 Resolution of a path in the head tree: `..` segments and symbolic links followed, at most 40 links.
 */
module TreePaths {
  import opened Wrappers

  const SYMLINK_HOPS := 40

  datatype Refusal = LeavesRepository | AbsoluteOrTooManyLinks

  // ----- paths as text ----------------------------------------------------

  /** The components of a path, split at every slash. */
  function Split(path: string): (parts: seq<string>)
    ensures parts != [] && forall k :: 0 <= k < |parts| ==> '/' !in parts[k]
  {
    if path == "" then [""]
    else
      var rest := Split(path[1..]);
      if path[0] == '/' then [""] + rest else [[path[0]] + rest[0]] + rest[1..]
  }

  function Join(parts: seq<string>): string {
    if parts == [] then "" else if |parts| == 1 then parts[0] else parts[0] + "/" + Join(parts[1..])
  }

  lemma {:induction false} SplitOfPart(part: string, path: string)
    requires '/' !in part
    ensures Split(part) == [part]
    ensures Split(part + "/" + path) == [part] + Split(path)
    decreases |part|
  {
    if part == "" {
      assert ("" + "/" + path)[1..] == path;
    } else {
      SplitOfPart(part[1..], path);
      assert [part[0]] + part[1..] == part;
      assert (part + "/" + path)[1..] == part[1..] + "/" + path;
    }
  }

  /** Splitting undoes joining. */
  lemma {:induction false} SplitOfJoin(parts: seq<string>)
    requires parts != [] && forall k :: 0 <= k < |parts| ==> '/' !in parts[k]
    ensures Split(Join(parts)) == parts
    decreases |parts|
  {
    if |parts| == 1 {
      SplitOfPart(parts[0], "");
    } else {
      SplitOfJoin(parts[1..]);
      SplitOfPart(parts[0], Join(parts[1..]));
    }
  }

  // ----- the reference: lookup, one component at a time -------------------

  datatype Place = Place(at: seq<string>, hops: nat)

  predicate Absolute(target: string) {
    target != "" && target[0] == '/'
  }

  /** What following `parts` from the directory `at` reaches. A link is looked up on its own, from the directory
      that holds it, and the rest of the path continues from where the link leads. */
  function Lookup(links: map<string, string>, at: seq<string>, parts: seq<string>, hops: nat)
    : (r: Result<Place, Refusal>)
    ensures r.Ok? ==> r.value.hops <= hops
    decreases hops, |parts|
  {
    if parts == [] then Ok(Place(at, hops))
    else
      var part, rest := parts[0], parts[1..];
      if part == "" || part == "." then Lookup(links, at, rest, hops)
      else if part == ".." then
        if at == [] then Err(LeavesRepository) else Lookup(links, at[..|at| - 1], rest, hops)
      else if Join(at + [part]) !in links then Lookup(links, at + [part], rest, hops)
      else
        var target := links[Join(at + [part])];
        if hops == 0 || Absolute(target) then Err(AbsoluteOrTooManyLinks)
        else
          match Lookup(links, at, Split(target), hops - 1)
          case Err(e) => Err(e)
          case Ok(place) => Lookup(links, place.at, rest, place.hops)
  }

  function Then(links: map<string, string>, r: Result<Place, Refusal>, parts: seq<string>): Result<Place, Refusal> {
    match r
    case Err(e) => Err(e)
    case Ok(place) => Lookup(links, place.at, parts, place.hops)
  }

  /** Looking up a concatenation is looking up one part after the other. */
  lemma {:induction false} LookupConcat(links: map<string, string>, at: seq<string>, a: seq<string>, b: seq<string>,
                                        hops: nat)
    ensures Lookup(links, at, a + b, hops) == Then(links, Lookup(links, at, a, hops), b)
    decreases hops, |a|
  {
    if a == [] {
      assert a + b == b;
    } else {
      var part, rest := a[0], a[1..];
      assert (a + b)[0] == part && (a + b)[1..] == rest + b;
      if part == "" || part == "." {
        LookupConcat(links, at, rest, b, hops);
      } else if part == ".." {
        if at != [] {
          LookupConcat(links, at[..|at| - 1], rest, b, hops);
        }
      } else if Join(at + [part]) !in links {
        LookupConcat(links, at + [part], rest, b, hops);
      } else {
        var target := links[Join(at + [part])];
        if hops > 0 && !Absolute(target) {
          var inner := Lookup(links, at, Split(target), hops - 1);
          if inner.Ok? {
            LookupConcat(links, inner.value.at, rest, b, inner.value.hops);
          }
        }
      }
    }
  }

  // ----- what a resolved path looks like ----------------------------------

  predicate Plain(part: string) {
    part != "" && part != "." && part != ".." && '/' !in part
  }

  /** Only plain components, and no prefix is itself a link. */
  predicate Resolved(links: map<string, string>, at: seq<string>) {
    && (forall k :: 0 <= k < |at| ==> Plain(at[k]))
    && (forall k :: 0 < k <= |at| ==> Join(at[..k]) !in links)
  }

  lemma ResolvedMore(links: map<string, string>, at: seq<string>, part: string)
    requires Resolved(links, at) && Plain(part) && Join(at + [part]) !in links
    ensures Resolved(links, at + [part])
  {
    var more := at + [part];
    forall k | 0 < k <= |more| ensures Join(more[..k]) !in links {
      if k <= |at| {
        assert more[..k] == at[..k];
      } else {
        assert more[..k] == more;
      }
    }
  }

  lemma ResolvedParent(links: map<string, string>, at: seq<string>)
    requires Resolved(links, at) && at != []
    ensures Resolved(links, at[..|at| - 1])
  {
    var parent := at[..|at| - 1];
    forall k | 0 < k <= |parent| ensures Join(parent[..k]) !in links {
      assert parent[..k] == at[..k];
    }
  }

  /** Looking up a resolved path follows no link and arrives at that path. */
  lemma {:induction false} LookupOfResolved(links: map<string, string>, at: seq<string>, parts: seq<string>, hops: nat)
    requires Resolved(links, at + parts)
    ensures Lookup(links, at, parts, hops) == Ok(Place(at + parts, hops))
    decreases |parts|
  {
    if parts == [] {
      assert at + parts == at;
    } else {
      var next := at + [parts[0]];
      assert (at + parts)[|at|] == parts[0];
      assert (at + parts)[..|at| + 1] == next;
      assert next + parts[1..] == at + parts;
      LookupOfResolved(links, next, parts[1..], hops);
    }
  }

  // ----- steps that a path can take ---------------------------------------

  /** `..` takes back one component: the plain one before it, or what a link before it led to but for its last. At the
      top it leaves the repository. Empty components and `.` change nothing. */
  lemma StepUp(links: map<string, string>, at: seq<string>, part: string, rest: seq<string>, hops: nat)
    ensures Plain(part) && Join(at + [part]) !in links
            ==> Lookup(links, at, [part, ".."] + rest, hops) == Lookup(links, at, rest, hops)
    ensures Lookup(links, at + [part], [".."] + rest, hops) == Lookup(links, at, rest, hops)
    ensures Lookup(links, [], [".."] + rest, hops) == Err(LeavesRepository)
    ensures Lookup(links, at, ["."] + rest, hops) == Lookup(links, at, rest, hops)
    ensures Lookup(links, at, [""] + rest, hops) == Lookup(links, at, rest, hops)
  {
    var up := [".."] + rest;
    assert up[1..] == rest && up[0] == "..";
    assert (at + [part])[..|at + [part]| - 1] == at;
    assert ([part, ".."] + rest)[1..] == up && ([part, ".."] + rest)[0] == part;
    assert (["."] + rest)[1..] == rest && ([""] + rest)[1..] == rest;
  }

  /** In directory `at` each name links to the next, and the last is no link. */
  predicate Chain(links: map<string, string>, at: seq<string>, names: seq<string>) {
    && names != [] && (forall i :: 0 <= i < |names| ==> Plain(names[i]))
    && (forall i :: 0 <= i < |names| - 1 ==>
        Join(at + [names[i]]) in links && links[Join(at + [names[i]])] == names[i + 1])
    && Join(at + [names[|names| - 1]]) !in links
  }

  /** A chain of links leads to its last name and costs a hop a link; it is refused when that is more than are left. */
  lemma {:induction false} ChainIsFollowed(links: map<string, string>, at: seq<string>, names: seq<string>,
                                           rest: seq<string>, hops: nat)
    requires Chain(links, at, names)
    ensures Lookup(links, at, [names[0]] + rest, hops)
            == if hops < |names| - 1 then Err(AbsoluteOrTooManyLinks)
               else Lookup(links, at + [names[|names| - 1]], rest, hops - (|names| - 1))
    decreases |names|
  {
    var parts := [names[0]] + rest;
    assert parts[0] == names[0] && parts[1..] == rest;
    if |names| > 1 && hops > 0 {
      SplitOfPart(names[1], "");
      assert names[1..][0] == names[1];
      ChainIsFollowed(links, at, names[1..], [], hops - 1);
      assert [names[1]] + [] == [names[1]];
    }
  }

  /** A link to itself is refused, however many hops are left. */
  lemma {:induction false} SelfLinkIsRefused(links: map<string, string>, at: seq<string>, part: string,
                                             rest: seq<string>, hops: nat)
    requires Plain(part) && Join(at + [part]) in links && links[Join(at + [part])] == part
    ensures Lookup(links, at, [part] + rest, hops) == Err(AbsoluteOrTooManyLinks)
    decreases hops
  {
    assert ([part] + rest)[0] == part && ([part] + rest)[1..] == rest;
    if hops > 0 {
      SplitOfPart(part, "");
      SelfLinkIsRefused(links, at, part, [], hops - 1);
      assert [part] + [] == [part];
    }
  }

  // ----- the loop ---------------------------------------------------------

  /** Agrees with the reference lookup, on every link map, cyclic ones included. */
  method ResolveParts(path: string, links: map<string, string>) returns (r: Result<seq<string>, Refusal>)
    ensures r == match Lookup(links, [], Split(path), SYMLINK_HOPS)
                 case Err(e) => Err(e)
                 case Ok(place) => Ok(place.at)
    ensures r.Ok? ==> Resolved(links, r.value)
  {
    var parts, resolved: seq<string>, hops := Split(path), [], 0;
    while parts != []
      invariant 0 <= hops <= SYMLINK_HOPS && Resolved(links, resolved)
      invariant forall k :: 0 <= k < |parts| ==> '/' !in parts[k]
      invariant Lookup(links, resolved, parts, SYMLINK_HOPS - hops) == Lookup(links, [], Split(path), SYMLINK_HOPS)
      decreases SYMLINK_HOPS - hops, |parts|
    {
      var part := parts[0];
      parts := parts[1..];
      if part == "" || part == "." {
        continue;
      }
      if part == ".." {
        if resolved == [] {
          return Err(LeavesRepository);
        }
        ResolvedParent(links, resolved);
        resolved := resolved[..|resolved| - 1];
        continue;
      }
      var next := resolved + [part];
      if Join(next) !in links {
        ResolvedMore(links, resolved, part);
        resolved := next;
        continue;
      }
      var target := links[Join(next)];
      hops := hops + 1;
      if hops > SYMLINK_HOPS || Absolute(target) {
        return Err(AbsoluteOrTooManyLinks);
      }
      LookupConcat(links, resolved, Split(target), parts, SYMLINK_HOPS - hops);
      parts := Split(target) + parts;
    }
    return Ok(resolved);
  }

  method ResolveInTree(path: string, links: map<string, string>) returns (r: Result<string, Refusal>)
    ensures r == match Lookup(links, [], Split(path), SYMLINK_HOPS)
                 case Err(e) => Err(e)
                 case Ok(place) => Ok(Join(place.at))
  {
    var parts := ResolveParts(path, links);
    return if parts.Ok? then Ok(Join(parts.value)) else Err(parts.error);
  }

  /** A path that starts a chain of links at the top is resolved if and only if there are at most 40 of them. */
  lemma FortyLinks(links: map<string, string>, names: seq<string>)
    requires Chain(links, [], names)
    ensures Lookup(links, [], Split(names[0]), SYMLINK_HOPS).Ok? <==> |names| - 1 <= 40
    ensures |names| - 1 <= 40 ==> Lookup(links, [], Split(names[0]), SYMLINK_HOPS).value.at == [names[|names| - 1]]
  {
    SplitOfPart(names[0], "");
    ChainIsFollowed(links, [], names, [], SYMLINK_HOPS);
    assert [names[0]] + [] == [names[0]];
    assert [] + [names[|names| - 1]] == [names[|names| - 1]];
  }

  lemma {:induction false} LookupIsResolved(links: map<string, string>, at: seq<string>, parts: seq<string>, hops: nat)
    requires Resolved(links, at) && forall k :: 0 <= k < |parts| ==> '/' !in parts[k]
    ensures var r := Lookup(links, at, parts, hops); r.Ok? ==> Resolved(links, r.value.at)
    decreases hops, |parts|
  {
    if parts != [] {
      var part, rest := parts[0], parts[1..];
      if part == "" || part == "." {
        LookupIsResolved(links, at, rest, hops);
      } else if part == ".." {
        if at != [] {
          ResolvedParent(links, at);
          LookupIsResolved(links, at[..|at| - 1], rest, hops);
        }
      } else if Join(at + [part]) !in links {
        ResolvedMore(links, at, part);
        LookupIsResolved(links, at + [part], rest, hops);
      } else {
        var target := links[Join(at + [part])];
        if hops > 0 && !Absolute(target) {
          LookupIsResolved(links, at, Split(target), hops - 1);
          var inner := Lookup(links, at, Split(target), hops - 1);
          if inner.Ok? {
            LookupIsResolved(links, inner.value.at, rest, inner.value.hops);
          }
        }
      }
    }
  }

  /** Resolving what a resolution returned returns it unchanged: it has only plain components, no prefix of it is a
      link, and its text splits back into the same components. */
  lemma ResolvingTwice(path: string, links: map<string, string>)
    ensures var r := Lookup(links, [], Split(path), SYMLINK_HOPS);
            r.Ok? ==> Resolved(links, r.value.at)
                      && Lookup(links, [], Split(Join(r.value.at)), SYMLINK_HOPS) == Ok(Place(r.value.at, SYMLINK_HOPS))
  {
    LookupIsResolved(links, [], Split(path), SYMLINK_HOPS);
    var r := Lookup(links, [], Split(path), SYMLINK_HOPS);
    if r.Ok? {
      ResolvingIsStable(links, r.value.at);
    }
  }

  /** Resolving a resolved path again changes nothing: its text splits into the same components, none of them a
      step up and no prefix a link. */
  lemma ResolvingIsStable(links: map<string, string>, at: seq<string>)
    requires Resolved(links, at)
    ensures Lookup(links, [], Split(Join(at)), SYMLINK_HOPS) == Ok(Place(at, SYMLINK_HOPS))
  {
    if at == [] {
      assert Split("") == [""];
      assert [""][1..] == [];
    } else {
      SplitOfJoin(at);
      assert [] + at == at;
      LookupOfResolved(links, [], at, SYMLINK_HOPS);
    }
  }
}
