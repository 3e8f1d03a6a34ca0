/** Selecting the path of a request by its name, and the check that refuses pathnames which earlier
    paths overwrite. `find` stands for the Lua pattern search. */
module PathCheck {
  import opened Common

  type Find = (string, string) -> bool

  /** Pathnames start with one of four characters. */
  predicate WellFormed(paths: seq<seq<string>>) {
    forall i, j :: 0 <= i < |paths| && 0 <= j < |paths[i]| ==> NameOk(paths[i][j])
  }

  predicate NameOk(def: string) {
    def != "" && def[0] in {'=', '/', '~', '@'}
  }

  predicate StartsWith(s: string, c: char) {
    s != "" && s[0] == c
  }

  /** An internal name "@..." must be equal; otherwise "=" is exact, "/" a prefix and "~" a pattern. */
  predicate Matches(def: string, req: string, find: Find)
    requires NameOk(def)
  {
    if StartsWith(req, '@') then def == req
    else if def[0] == '=' then def[1..] == req
    else if def[0] == '/' then def <= req
    else if def[0] == '~' then find(req, def[1..])
    else false
  }

  /** An internal request finds nothing but its very name. Any other finds the exact name, a prefix of it, or
      a pattern, and never an internal one. */
  lemma WhatMatches(def: string, req: string, find: Find)
    requires NameOk(def)
    ensures req != "" && req[0] == '@' ==> (Matches(def, req, find) <==> def == req)
    ensures req == "" || req[0] != '@' ==>
        (Matches(def, req, find) <==>
          || def == "=" + req
          || (def[0] == '/' && |def| <= |req| && req[..|def|] == def)
          || (def[0] == '~' && find(req, def[1..])))
  {
    assert def == [def[0]] + def[1..];
  }

  predicate AnyMatches(names: seq<string>, req: string, find: Find)
    requires forall j :: 0 <= j < |names| ==> NameOk(names[j])
  {
    exists j :: 0 <= j < |names| && Matches(names[j], req, find)
  }

  /** No path before `i` matches. */
  predicate NoneBefore(paths: seq<seq<string>>, i: nat, req: string, find: Find)
    requires WellFormed(paths) && i <= |paths|
  {
    forall k :: 0 <= k < i ==> !AnyMatches(paths[k], req, find)
  }

  /** `r` is the first path that matches. */
  predicate Selects(paths: seq<seq<string>>, req: string, find: Find, r: Option<nat>)
    requires WellFormed(paths)
  {
    match r
    case None => NoneBefore(paths, |paths|, req, find)
    case Some(i) => i < |paths| && NoneBefore(paths, i, req, find) && AnyMatches(paths[i], req, find)
  }

  method Locate(paths: seq<seq<string>>, req: string, find: Find) returns (r: Option<nat>)
    requires WellFormed(paths)
    ensures Selects(paths, req, find, r)
  {
    for i := 0 to |paths|
      invariant NoneBefore(paths, i, req, find)
    {
      for j := 0 to |paths[i]|
        invariant forall k :: 0 <= k < j ==> !Matches(paths[i][k], req, find)
      {
        if Matches(paths[i][j], req, find) {
          return Some(i);
        }
      }
    }
    return None;
  }

  /** So no request from outside gets to a path by an internal name, and an internal one only by its own. */
  lemma InternalStaysInternal(paths: seq<seq<string>>, req: string, find: Find, i: nat)
    requires WellFormed(paths) && Selects(paths, req, find, Some(i))
    ensures i < |paths|
    ensures req != "" && req[0] == '@' ==> req in paths[i]
    ensures req == "" || req[0] != '@' ==> exists name <- paths[i] :: name[0] != '@'
  {
    var j :| 0 <= j < |paths[i]| && Matches(paths[i][j], req, find);
    WhatMatches(paths[i][j], req, find);
    assert paths[i][j] in paths[i];
  }

  // ---------- the check ----------

  /** What a pathname is tried as: an exact name without its "=". */
  function Tried(name: string): string
    requires NameOk(name)
  {
    if name[0] == '=' then name[1..] else name
  }

  /** `pattern` overwrites `name`. An exact pattern does not overwrite a prefix. */
  predicate Overwrites(pattern: string, name: string, find: Find)
    requires NameOk(pattern) && NameOk(name)
  {
    !(pattern[0] == '=' && name[0] == '/') && Matches(pattern, Tried(name), find)
  }

  predicate AnyOverwrites(names: seq<string>, name: string, find: Find)
    requires NameOk(name) && forall j :: 0 <= j < |names| ==> NameOk(names[j])
  {
    exists j :: 0 <= j < |names| && Overwrites(names[j], name, find)
  }

  /** `name`, in path `stop`, is overwritten by an earlier path. Patterns are never checked. */
  predicate Rejected(paths: seq<seq<string>>, stop: nat, name: string, find: Find)
    requires WellFormed(paths) && stop <= |paths| && NameOk(name)
  {
    name[0] != '~' && exists i :: 0 <= i < stop && AnyOverwrites(paths[i], name, find)
  }

  predicate Accepted(paths: seq<seq<string>>, find: Find)
    requires WellFormed(paths)
  {
    forall i, j :: 0 <= i < |paths| && 0 <= j < |paths[i]| ==> !Rejected(paths, i, paths[i][j], find)
  }

  method CheckOverwrite(paths: seq<seq<string>>, stop: nat, name: string, find: Find) returns (r: bool)
    requires WellFormed(paths) && stop <= |paths| && NameOk(name)
    ensures r == Rejected(paths, stop, name, find)
  {
    var first := name[0];
    if first == '~' {
      return false;
    }
    var tried := if first == '=' then name[1..] else name;
    for i := 0 to stop
      invariant forall k :: 0 <= k < i ==> !AnyOverwrites(paths[k], name, find)
    {
      for j := 0 to |paths[i]|
        invariant forall k :: 0 <= k < j ==> !Overwrites(paths[i][k], name, find)
      {
        var pattern := paths[i][j];
        if pattern[0] == '=' && first == '/' {
          continue;
        }
        if Matches(pattern, tried, find) {
          assert Overwrites(pattern, name, find);
          return true;
        }
      }
    }
    return false;
  }

  /** Pathname `j` of path `i` is rejected, and none before it is. */
  predicate IsFirstRejected(paths: seq<seq<string>>, i: nat, j: nat, find: Find)
    requires WellFormed(paths) && i < |paths| && j < |paths[i]|
  {
    && Rejected(paths, i, paths[i][j], find)
    && (forall k, l :: 0 <= k < i && 0 <= l < |paths[k]| ==> !Rejected(paths, k, paths[k][l], find))
    && (forall l :: 0 <= l < j ==> !Rejected(paths, i, paths[i][l], find))
  }

  /** The first offending pathname of a host, if any. */
  method CheckHost(paths: seq<seq<string>>, find: Find) returns (bad: Option<string>)
    requires WellFormed(paths)
    ensures bad == None <==> Accepted(paths, find)
    ensures bad.Some? ==> exists i, j :: 0 <= i < |paths| && 0 <= j < |paths[i]| && bad.value == paths[i][j]
                                         && IsFirstRejected(paths, i, j, find)
  {
    for i := 0 to |paths|
      invariant forall k, j :: 0 <= k < i && 0 <= j < |paths[k]| ==> !Rejected(paths, k, paths[k][j], find)
    {
      for j := 0 to |paths[i]|
        invariant forall k :: 0 <= k < j ==> !Rejected(paths, i, paths[i][k], find)
      {
        var overwritten := CheckOverwrite(paths, i, paths[i][j], find);
        if overwritten {
          assert IsFirstRejected(paths, i, j, find);
          return Some(paths[i][j]);
        }
      }
    }
    return None;
  }

  // ---------- what acceptance is worth ----------

  /** What the check does not skip, it tries as the request of that name. */
  lemma NotRejected(paths: seq<seq<string>>, i: nat, name: string, find: Find)
    requires WellFormed(paths) && i <= |paths| && NameOk(name) && name[0] != '~' && !Rejected(paths, i, name, find)
    requires name[0] == '/' ==> forall k, j :: 0 <= k < i && 0 <= j < |paths[k]| ==> paths[k][j] != "=" + name
    ensures NoneBefore(paths, i, Tried(name), find)
  {
    forall k, j | 0 <= k < i && 0 <= j < |paths[k]|
      ensures !Matches(paths[k][j], Tried(name), find)
    {
      var def := paths[k][j];
      assert !AnyOverwrites(paths[k], name, find);
      assert !Overwrites(def, name, find);
      assert def == [def[0]] + def[1..];
    }
  }

  /** In an accepted host, an exact name "=x" selects its path for the request x. */
  lemma ExactIsSelected(paths: seq<seq<string>>, find: Find, i: nat, j: nat, req: string)
    requires WellFormed(paths) && Accepted(paths, find) && i < |paths| && j < |paths[i]|
    requires paths[i][j] == "=" + req && !StartsWith(req, '@')
    ensures Selects(paths, req, find, Some(i))
  {
    NotRejected(paths, i, paths[i][j], find);
    assert Matches(paths[i][j], req, find);
  }

  /** So does an internal name. */
  lemma InternalIsSelected(paths: seq<seq<string>>, find: Find, i: nat, j: nat, name: string)
    requires WellFormed(paths) && Accepted(paths, find) && i < |paths| && j < |paths[i]|
    requires paths[i][j] == name && name[0] == '@'
    ensures Selects(paths, name, find, Some(i))
  {
    NotRejected(paths, i, paths[i][j], find);
    assert Matches(paths[i][j], name, find);
  }

  /** A prefix selects its path for the request of that very name exactly if no earlier path has
      that name as an exact one. */
  lemma PrefixIsSelected(paths: seq<seq<string>>, find: Find, i: nat, j: nat, name: string)
    requires WellFormed(paths) && Accepted(paths, find) && i < |paths| && j < |paths[i]|
    requires paths[i][j] == name && name[0] == '/'
    ensures Selects(paths, name, find, Some(i))
            <==> forall k, l :: 0 <= k < i && 0 <= l < |paths[k]| ==> paths[k][l] != "=" + name
  {
    assert Matches(paths[i][j], name, find);
    if forall k, l :: 0 <= k < i && 0 <= l < |paths[k]| ==> paths[k][l] != "=" + name {
      NotRejected(paths, i, name, find);
    } else {
      var k, l :| 0 <= k < i && 0 <= l < |paths[k]| && paths[k][l] == "=" + name;
      assert Matches(paths[k][l], name, find);
    }
  }

  // ---------- what rejection is worth ----------

  /** Overwritten by more than a pattern that happens to match the name of a prefix. */
  predicate SurelyOverwritten(paths: seq<seq<string>>, stop: nat, name: string, find: Find)
    requires WellFormed(paths) && stop <= |paths| && NameOk(name)
  {
    exists i, j :: 0 <= i < stop && 0 <= j < |paths[i]| && Overwrites(paths[i][j], name, find)
                   && (name[0] != '/' || paths[i][j][0] != '~')
  }

  /** Such a pathname decides nothing: some earlier path matches every request that it matches. */
  lemma RejectedDecidesNothing(paths: seq<seq<string>>, stop: nat, name: string, find: Find, req: string)
    requires WellFormed(paths) && stop <= |paths| && NameOk(name) && name[0] != '~'
    requires SurelyOverwritten(paths, stop, name, find) && Matches(name, req, find)
    ensures !NoneBefore(paths, stop, req, find)
  {
    var i, j :| 0 <= i < stop && 0 <= j < |paths[i]| && Overwrites(paths[i][j], name, find)
                && (name[0] != '/' || paths[i][j][0] != '~');
    assert Matches(paths[i][j], req, find);
  }

  lemma FewerNames(names: seq<string>, fewer: seq<string>, j: nat, req: string, find: Find)
    requires j < |names| && fewer == names[..j] + names[j + 1..] && forall k :: 0 <= k < |names| ==> NameOk(names[k])
    requires !Matches(names[j], req, find)
    ensures forall k :: 0 <= k < |fewer| ==> NameOk(fewer[k])
    ensures AnyMatches(names, req, find) <==> AnyMatches(fewer, req, find)
  {
    assert forall k :: 0 <= k < j ==> fewer[k] == names[k];
    assert forall k :: j < k < |names| ==> fewer[k - 1] == names[k];
  }

  /** A change of path `i` alone that shows only to requests decided before it. */
  lemma SameSelection(paths: seq<seq<string>>, rest: seq<seq<string>>, i: nat, req: string, find: Find, r: Option<nat>)
    requires |rest| == |paths| && i < |paths| && WellFormed(paths) && WellFormed(rest)
    requires forall k :: 0 <= k < |paths| && k != i ==> rest[k] == paths[k]
    requires !NoneBefore(paths, i, req, find) || AnyMatches(paths[i], req, find) == AnyMatches(rest[i], req, find)
    ensures Selects(paths, req, find, r) <==> Selects(rest, req, find, r)
  {
    hide AnyMatches, NameOk;
    if !NoneBefore(paths, i, req, find) {
      var k :| 0 <= k < i && AnyMatches(paths[k], req, find);
      assert AnyMatches(rest[k], req, find);
    }
  }

  /** So taking it out of its path changes the selection of no request. */
  lemma RejectedIsRedundant(paths: seq<seq<string>>, i: nat, j: nat, find: Find, req: string, r: Option<nat>)
    requires WellFormed(paths) && i < |paths| && j < |paths[i]|
    requires paths[i][j][0] != '~' && SurelyOverwritten(paths, i, paths[i][j], find)
    ensures var rest := paths[i := paths[i][..j] + paths[i][j + 1..]];
            WellFormed(rest) && (Selects(paths, req, find, r) <==> Selects(rest, req, find, r))
  {
    var names := paths[i];
    var rest := paths[i := names[..j] + names[j + 1..]];
    if Matches(names[j], req, find) {
      RejectedDecidesNothing(paths, i, names[j], find, req);
    } else {
      FewerNames(names, rest[i], j, req, find);
    }
    SameSelection(paths, rest, i, req, find, r);
  }

  predicate NoPatterns(paths: seq<seq<string>>, stop: nat)
    requires WellFormed(paths) && stop <= |paths|
  {
    forall i, j :: 0 <= i < stop && 0 <= j < |paths[i]| ==> paths[i][j][0] != '~'
  }

  /** Where no "~" pattern comes before it, a rejected pathname could be left out of its host: no request
      would be served by another path. */
  lemma RejectionIsHarmless(paths: seq<seq<string>>, i: nat, j: nat, find: Find, req: string, r: Option<nat>)
    requires WellFormed(paths) && i < |paths| && j < |paths[i]|
    requires Rejected(paths, i, paths[i][j], find) && NoPatterns(paths, i)
    ensures var rest := paths[i := paths[i][..j] + paths[i][j + 1..]];
            WellFormed(rest) && (Selects(paths, req, find, r) <==> Selects(rest, req, find, r))
  {
    var k :| 0 <= k < i && AnyOverwrites(paths[k], paths[i][j], find);
    var l :| 0 <= l < |paths[k]| && Overwrites(paths[k][l], paths[i][j], find);
    RejectedIsRedundant(paths, i, j, find, req, r);
  }

  /** With a pattern it can: "~^/a$" before "/a" rejects "/a", which alone matches "/ab". */
  lemma RejectedMayDecide(find: Find)
    requires find("/a", "^/a$") && !find("/ab", "^/a$")
    ensures var paths := [["~^/a$"], ["/a"]];
            WellFormed(paths) && Rejected(paths, 1, "/a", find) && Selects(paths, "/ab", find, Some(1))
  {
    var paths := [["~^/a$"], ["/a"]];
    assert "~^/a$"[1..] == "^/a$" && "/a" <= "/ab";
    assert Overwrites(paths[0][0], "/a", find) && AnyOverwrites(paths[0], "/a", find);
    assert Matches(paths[1][0], "/ab", find) && AnyMatches(paths[1], "/ab", find);
    assert !Matches(paths[0][0], "/ab", find);
  }
}
