/** Request-parameter parsing of the HTTP handlers (handlers/rop.go): the
    memory-access specification of the regions query, the file path of a
    files request, and the process id of a pid request. */
module Handlers {
  import opened Types

  /*************************************************************************
   * Access specification (handlers/rop.go:428-456)
   *************************************************************************/

  /** The flags of `memaccess.Access`. */
  datatype Access = Readable | Writable | Executable | Free

  const AllAccess: set<Access> := {Readable, Writable, Executable, Free}

  /** The letter that stands for a flag in an access specification. */
  function Letter(a: Access): char
  {
    match a
    case Readable => 'R'
    case Writable => 'W'
    case Executable => 'X'
    case Free => 'F'
  }

  const ImproperAccess: Error := Error("Improper Access specification.")

  /** `unicode.ToUpper` on the ASCII letters; every other character is left as it is. */
  function UpperChar(c: char): char
  {
    if 'a' <= c <= 'z' then (c as int - 32) as char else c
  }

  /** `strings.ToUpper`. */
  function ToUpper(s: string): (u: string)
    ensures |u| == |s|
    ensures forall i :: 0 <= i < |s| ==> u[i] == UpperChar(s[i])
  {
    if s == [] then [] else [UpperChar(s[0])] + ToUpper(s[1..])
  }

  /** `strings.Replace(s, c, "", 1)`: delete the first occurrence of `c`. */
  function RemoveFirst(s: string, c: char): (r: string)
    ensures c !in s ==> r == s
    ensures c in s ==> |r| == |s| - 1
  {
    if s == [] then []
    else if s[0] == c then s[1..]
    else [s[0]] + RemoveFirst(s[1..], c)
  }

  /** Deleting the first occurrence cuts `s` at the first index holding `c`. */
  lemma {:induction false} RemoveFirstCutsAtFirst(s: string, c: char, i: nat)
    requires i < |s| && s[i] == c && c !in s[..i]
    ensures RemoveFirst(s, c) == s[..i] + s[i + 1..]
  {
    if i > 0 {
      assert s[0] in s[..i];
      assert s[1..][..i - 1] == s[1..i];
      RemoveFirstCutsAtFirst(s[1..], c, i - 1);
      assert s[..i] == [s[0]] + s[1..][..i - 1];
      assert s[i + 1..] == s[1..][i..];
    }
  }

  /** Deleting the first occurrence removes exactly one `c` from the multiset. */
  lemma {:induction false} RemoveFirstMultiset(s: string, c: char)
    ensures c in s ==> multiset(RemoveFirst(s, c)) == multiset(s) - multiset{c}
  {
    if s != [] {
      assert s == [s[0]] + s[1..];
      if s[0] != c {
        RemoveFirstMultiset(s[1..], c);
      }
    }
  }

  /** What is left of `u` once one R, one W, one X and one F have been deleted. */
  function Residue(u: string): string
  {
    RemoveFirst(RemoveFirst(RemoveFirst(RemoveFirst(u, 'R'), 'W'), 'X'), 'F')
  }

  /** `c` is the letter of one of the flags. */
  predicate IsFlagLetter(c: char)
  {
    c == 'R' || c == 'W' || c == 'X' || c == 'F'
  }

  /** Every character of `u` is the letter of a flag. */
  ghost predicate OnlyFlagLetters(u: string)
  {
    forall i :: 0 <= i < |u| ==> IsFlagLetter(u[i])
  }

  /** The meaning of an upper-cased access specification: "NONE" is no
      access, the empty specification is read access, and otherwise the
      specification must name each flag by its letter, at most once, and
      nothing else; it then stands for the flags it names. */
  ghost function AccessOf(u: string): Result<set<Access>, Error>
  {
    if u == "NONE" then Success({})
    else if u == "" then Success({Readable})
    else if OnlyFlagLetters(u) && Distinct(u) then
      Success(FlagsOf(u))
    else Failure(ImproperAccess)
  }

  /** The access-specification block of ROPMemoryRegionsHandler, given the
      raw `access` form value ("" when absent). */
  method ParseAccess(raw: string) returns (r: Result<set<Access>, Error>)
    ensures r == AccessOf(ToUpper(raw))
    ensures var u := ToUpper(raw); u != "NONE" && u != "" ==> (r.Failure? <==> Residue(u) != "")
  {
    var access: set<Access> := {};
    var accessS := ToUpper(raw);
    if accessS == "NONE" {
      access := {};
    } else if accessS == "" {
      access := {Readable};
    } else {
      AccessOfResidue(accessS);
      access, accessS := TakeFlagLetters(accessS);
      if accessS != "" {
        return Failure(ImproperAccess);
      }
    }
    r := Success(access);
  }

  /** The four letter tests of the access block, in the order R, W, X, F;
      what is returned beside the flags is what remains of `u`. */
  method TakeFlagLetters(u: string) returns (access: set<Access>, rest: string)
    ensures access == FlagsOf(u) && rest == Residue(u)
  {
    LettersSurviveRemoval(u);
    access, rest := TakeLetter({}, u, Readable);
    assert Readable in access <==> 'R' in u;
    access, rest := TakeLetter(access, rest, Writable);
    assert Writable in access <==> 'W' in u;
    access, rest := TakeLetter(access, rest, Executable);
    assert Executable in access <==> 'X' in u;
    access, rest := TakeLetter(access, rest, Free);
    FlagsByLetter(u, access);
  }

  /** One letter test: when the letter of `a` occurs in `rest`, grant `a`
      and delete the first occurrence of the letter. */
  method TakeLetter(access: set<Access>, rest: string, a: Access) returns (access': set<Access>, rest': string)
    ensures access' == if Letter(a) in rest then access + {a} else access
    ensures rest' == RemoveFirst(rest, Letter(a))
  {
    access', rest' := access, rest;
    if Letter(a) in rest {
      access' := access + {a};
      rest' := RemoveFirst(rest, Letter(a));
    }
  }

  /** The flags whose letters occur in `u`. */
  function FlagsOf(u: string): set<Access>
  {
    set a | a in AllAccess && Letter(a) in u
  }

  /** A set holding each flag exactly when its letter occurs in `u` is the
      flags of `u`. */
  lemma FlagsByLetter(u: string, access: set<Access>)
    requires Readable in access <==> 'R' in u
    requires Writable in access <==> 'W' in u
    requires Executable in access <==> 'X' in u
    requires Free in access <==> 'F' in u
    ensures access == FlagsOf(u)
  {
    forall a ensures a in access <==> a in FlagsOf(u) {
      match a
      case Readable =>
      case Writable =>
      case Executable =>
      case Free =>
    }
  }

  /** Deleting the first R, then W, then X does not change which of the later
      letters occur. */
  lemma LettersSurviveRemoval(u: string)
    ensures var u1 := RemoveFirst(u, 'R');
            var u2 := RemoveFirst(u1, 'W');
            var u3 := RemoveFirst(u2, 'X');
            && ('W' in u1 <==> 'W' in u) && ('X' in u1 <==> 'X' in u) && ('F' in u1 <==> 'F' in u)
            && ('X' in u2 <==> 'X' in u) && ('F' in u2 <==> 'F' in u)
            && ('F' in u3 <==> 'F' in u)
  {
    var u1 := RemoveFirst(u, 'R');
    var u2 := RemoveFirst(u1, 'W');
    var u3 := RemoveFirst(u2, 'X');
    RemoveFirstCount(u, 'R', 'W');
    RemoveFirstCount(u, 'R', 'X');
    RemoveFirstCount(u, 'R', 'F');
    RemoveFirstCount(u1, 'W', 'X');
    RemoveFirstCount(u1, 'W', 'F');
    RemoveFirstCount(u2, 'X', 'F');
  }

  /** A specification other than "NONE" and "" is accepted exactly when
      deleting one R, W, X and F leaves nothing, and then stands for the
      flags whose letters it holds. */
  lemma AccessOfResidue(u: string)
    requires u != "NONE" && u != ""
    ensures AccessOf(u) == if Residue(u) == "" then Success(FlagsOf(u)) else Failure(ImproperAccess)
  {
    ResidueEmptyIff(u);
  }

  /** The residue of `u` counts every character of `u` once less if it is
      one of R, W, X, F, and as often otherwise. */
  lemma ResidueCount(u: string, d: char)
    ensures multiset(Residue(u))[d] ==
              if IsFlagLetter(d) && d in u then multiset(u)[d] - 1 else multiset(u)[d]
  {
    var u1 := RemoveFirst(u, 'R');
    var u2 := RemoveFirst(u1, 'W');
    var u3 := RemoveFirst(u2, 'X');
    RemoveFirstCount(u, 'R', d);
    RemoveFirstCount(u1, 'W', d);
    RemoveFirstCount(u2, 'X', d);
    RemoveFirstCount(u3, 'F', d);
    RemoveFirstCount(u, 'R', 'W');
    RemoveFirstCount(u, 'R', 'X');
    RemoveFirstCount(u, 'R', 'F');
    RemoveFirstCount(u1, 'W', 'X');
    RemoveFirstCount(u1, 'W', 'F');
    RemoveFirstCount(u2, 'X', 'F');
  }

  lemma RemoveFirstCount(s: string, c: char, d: char)
    ensures multiset(RemoveFirst(s, c))[d] == if d == c && c in s then multiset(s)[d] - 1 else multiset(s)[d]
    ensures d != c ==> (d in RemoveFirst(s, c) <==> d in s)
  {
    RemoveFirstMultiset(s, c);
    assert d in RemoveFirst(s, c) <==> d in multiset(RemoveFirst(s, c));
    assert d in s <==> d in multiset(s);
  }

  lemma {:induction false} DistinctIffSingle(u: string)
    ensures Distinct(u) <==> forall d :: multiset(u)[d] <= 1
  {
    if u != [] {
      var t := u[1..];
      assert u == [u[0]] + t;
      assert multiset(u) == multiset{u[0]} + multiset(t);
      DistinctIffSingle(t);
      if Distinct(u) {
        assert Distinct(t) by {
          forall i, j | 0 <= i < j < |t| ensures t[i] != t[j] {
            assert t[i] == u[i + 1] && t[j] == u[j + 1];
          }
        }
        assert u[0] !in t;
      }
      if forall d :: multiset(u)[d] <= 1 {
        assert forall d :: multiset(t)[d] <= multiset(u)[d];
        assert multiset(t)[u[0]] == 0;
        forall i, j | 0 <= i < j < |u| ensures u[i] != u[j] {
          if i == 0 {
            assert u[j] == t[j - 1];
          } else {
            assert u[i] == t[i - 1] && u[j] == t[j - 1];
          }
        }
      }
    }
  }

  /** Deleting one R, W, X and F leaves nothing exactly when the
      specification uses only those letters, each at most once. */
  lemma ResidueEmptyIff(u: string)
    ensures Residue(u) == "" <==> OnlyFlagLetters(u) && Distinct(u)
  {
    DistinctIffSingle(u);
    if Residue(u) == "" {
      forall d ensures multiset(u)[d] <= (if IsFlagLetter(d) then 1 else 0) {
        ResidueCount(u, d);
      }
      forall i | 0 <= i < |u| ensures IsFlagLetter(u[i]) {
        assert multiset(u)[u[i]] > 0;
      }
    } else {
      var d := Residue(u)[0];
      assert multiset(Residue(u))[d] > 0;
      ResidueCount(u, d);
      if !IsFlagLetter(d) {
        var i :| 0 <= i < |u| && u[i] == d;
      }
    }
  }

  /** Parsing does not depend on the order of the letters. */
  lemma AccessOfOrderIndependent(u1: string, u2: string)
    requires multiset(u1) == multiset(u2)
    requires u1 != "NONE" && u2 != "NONE"
    ensures AccessOf(u1) == AccessOf(u2)
  {
    assert |u1| == |multiset(u1)| == |u2|;
    DistinctIffSingle(u1);
    DistinctIffSingle(u2);
    assert forall c :: c in u1 <==> c in u2 by {
      forall c ensures c in u1 <==> c in u2 {
        assert c in u1 <==> c in multiset(u1);
        assert c in u2 <==> c in multiset(u2);
      }
    }
    assert OnlyFlagLetters(u1) <==> OnlyFlagLetters(u2) by {
      if OnlyFlagLetters(u1) {
        forall i | 0 <= i < |u2| ensures IsFlagLetter(u2[i]) {
          assert u2[i] in u1;
          var j :| 0 <= j < |u1| && u1[j] == u2[i];
        }
      }
      if OnlyFlagLetters(u2) {
        forall i | 0 <= i < |u1| ensures IsFlagLetter(u1[i]) {
          assert u1[i] in u2;
          var j :| 0 <= j < |u2| && u2[j] == u1[i];
        }
      }
    }
    assert FlagsOf(u1) == FlagsOf(u2);
  }

  /** Parsing ignores case: two specifications that agree letter by letter
      up to case mean the same. */
  lemma AccessCaseInsensitive(raw1: string, raw2: string)
    requires |raw1| == |raw2|
    requires forall i :: 0 <= i < |raw1| ==> UpperChar(raw1[i]) == UpperChar(raw2[i])
    ensures AccessOf(ToUpper(raw1)) == AccessOf(ToUpper(raw2))
  {
    assert ToUpper(raw1) == ToUpper(raw2);
  }

  /** The empty specification is read access; "none", in any case, is no access. */
  lemma AccessDefaults()
    ensures AccessOf(ToUpper("")) == Success({Readable})
    ensures AccessOf(ToUpper("none")) == Success({})
  {
    assert ToUpper("none") == "NONE";
  }

  /** A repeated letter is rejected. */
  lemma RepeatedLetterRejected()
    ensures AccessOf(ToUpper("RR")) == Failure(ImproperAccess)
  {
    assert ToUpper("RR") == "RR";
    assert !Distinct("RR") by { assert "RR"[0] == "RR"[1]; }
  }

  /** Anything beside the four letters is rejected, "NONE" included. */
  lemma NoneWithLetterRejected()
    ensures AccessOf(ToUpper("NONER")) == Failure(ImproperAccess)
  {
    assert ToUpper("NONER") == "NONER";
    assert !IsFlagLetter("NONER"[0]);
  }

  /** Letters stand for their flags, in any order and case. */
  lemma LettersGiveFlags()
    ensures AccessOf(ToUpper("xR")) == Success({Readable, Executable})
  {
    assert ToUpper("xR") == "XR";
    assert Distinct("XR") by { assert "XR"[0] != "XR"[1]; }
    assert FlagsOf("XR") == {Readable, Executable};
  }

  /*************************************************************************
   * File path of a files request (handlers/rop.go:52-59)
   *************************************************************************/

  /** `sep` occurs in `s` at position `k`. */
  ghost predicate OccursAt(s: string, sep: string, k: nat)
  {
    k + |sep| <= |s| && s[k..k + |sep|] == sep
  }

  /** No occurrence of `sep` in `s` starts at `from` or later. */
  ghost predicate NoOccurrenceFrom(s: string, sep: string, from: nat)
  {
    forall k: nat :: from <= k ==> !OccursAt(s, sep, k)
  }

  /** A piece of `s` split at `sep` can start at `p`: the start of `s`, or
      just past an occurrence of `sep`. */
  ghost predicate PieceStart(s: string, sep: string, p: nat)
  {
    p == 0 || (|sep| <= p && OccursAt(s, sep, p - |sep|))
  }

  /** The scan of `strings.Split` for a non-empty `sep`, from position `i`
      with the current piece starting at `start`: each occurrence found ends
      the current piece, and the scan resumes just past it. The result is
      where the last piece starts: after an occurrence (or at 0), with no
      occurrence from there on. */
  function LastPieceStart(s: string, sep: string, start: nat, i: nat): (p: nat)
    requires sep != "" && start <= i <= |s|
    requires PieceStart(s, sep, start)
    requires forall k: nat :: start <= k < i ==> !OccursAt(s, sep, k)
    ensures start <= p <= |s|
    ensures PieceStart(s, sep, p)
    ensures NoOccurrenceFrom(s, sep, p)
    decreases |s| - i
  {
    if i + |sep| > |s| then
      assert forall k: nat :: i <= k ==> !OccursAt(s, sep, k);
      start
    else if s[i..i + |sep|] == sep then
      assert PieceStart(s, sep, i + |sep|);
      LastPieceStart(s, sep, i + |sep|, i + |sep|)
    else
      assert !OccursAt(s, sep, i);
      LastPieceStart(s, sep, start, i + 1)
  }

  /** The last element of `strings.Split(s, sep)` for a non-empty `sep`: a
      suffix of `s` holding no `sep`, and either all of `s` or preceded by
      an occurrence of `sep`. */
  function SplitLast(s: string, sep: string): (r: string)
    requires sep != ""
    ensures |r| <= |s| && r == s[|s| - |r|..]
    ensures NoOccurrenceFrom(s, sep, |s| - |r|)
    ensures r == s || (|sep| <= |s| - |r| && OccursAt(s, sep, |s| - |r| - |sep|))
  {
    s[LastPieceStart(s, sep, 0, 0)..]
  }

  /** `strings.SplitN(p, "?", 2)[0]`: everything before the first '?'. */
  function BeforeQuery(p: string): (q: string)
    ensures q <= p && '?' !in q
    ensures |q| == |p| || p[|q|] == '?'
  {
    if p == [] || p[0] == '?' then []
    else
      assert p == [p[0]] + p[1..];
      [p[0]] + BeforeQuery(p[1..])
  }

  /** The path part of a files request before normalisation: the last piece
      of the request URI after the route prefix `uri`, cut at the first '?',
      with an empty path read as the root. */
  function RequestPath(requestURI: string, uri: string): (path: string)
    requires uri != ""
    ensures path != "" && '?' !in path
    ensures var piece := SplitLast(requestURI, uri);
            || (path <= piece && (|path| == |piece| || piece[|path|] == '?'))
            || (path == "/" && (piece == "" || piece[0] == '?'))
  {
    var path := BeforeQuery(SplitLast(requestURI, uri));
    if path == "" then "/" else path
  }

  /** `getFilepath`; `normalize` stands for `NormalizePath`, which is only
      ever given a non-empty path without a query. */
  function GetFilepath(requestURI: string, uri: string, normalize: string -> string): (filepath: string)
    requires uri != ""
    ensures exists path :: path != "" && '?' !in path && filepath == normalize(path)
  {
    normalize(RequestPath(requestURI, uri))
  }

  /** For a request URI made of the route, a path without '?' and possibly a
      query, the file path is the normalised path, or the normalised root. */
  lemma FilepathOfRoute(prefix: string, uri: string, path: string, query: string, normalize: string -> string)
    requires uri != "" && Unbordered(uri)
    requires '?' !in path && (query == "" || query[0] == '?')
    requires NoOccurrenceFrom(path + query, uri, 0)
    ensures GetFilepath(prefix + uri + path + query, uri, normalize)
              == normalize(if path == "" then "/" else path)
  {
    RequestPathOfRoute(prefix, uri, path, query);
  }

  /** The path is taken after the LAST occurrence of the route, wherever it
      is: it is what follows that occurrence, cut at its first '?'. */
  lemma RequestPathAfterLastRoute(head: string, uri: string, tail: string)
    requires uri != "" && Unbordered(uri)
    requires NoOccurrenceFrom(tail, uri, 0)
    ensures RequestPath(head + uri + tail, uri) == if BeforeQuery(tail) == "" then "/" else BeforeQuery(tail)
  {
    SplitLastAfterSep(head, uri, tail);
  }

  /** A query that repeats the route decides the path: the part of the
      query after the route is taken as the file path. */
  lemma QueryCanDecidePath()
    ensures RequestPath("/api/v1/files/tmp?q=api/v1/files/etc", "api/v1/files") == "/etc"
  {
    var route := "api/v1/files";
    FilesRouteUnbordered();
    assert NoOccurrenceFrom("/etc", route, 0);
    assert "/api/v1/files/tmp?q=api/v1/files/etc" == "/api/v1/files/tmp?q=" + route + "/etc";
    RequestPathAfterLastRoute("/api/v1/files/tmp?q=", route, "/etc");
    BeforeQueryOf("/etc", "");
  }

  /** No proper prefix of `sep` is also a suffix of it, so two occurrences
      of `sep` can never overlap. */
  ghost predicate Unbordered(sep: string)
  {
    forall d :: 0 < d < |sep| ==> sep[d..] != sep[..|sep| - d]
  }

  /** The files route has no border. */
  lemma FilesRouteUnbordered()
    ensures Unbordered("api/v1/files")
  {
    var sep := "api/v1/files";
    forall d | 0 < d < |sep| ensures sep[d..] != sep[..|sep| - d] {
      assert sep[d..][|sep| - d - 1] == 's' && sep[..|sep| - d][|sep| - d - 1] != 's';
    }
  }

  /** For a request URI that is the route, a path without '?', and possibly a
      query, the path is what follows the route; an empty path is the root. */
  lemma RequestPathOfRoute(prefix: string, uri: string, path: string, query: string)
    requires uri != "" && Unbordered(uri)
    requires '?' !in path && (query == "" || query[0] == '?')
    requires NoOccurrenceFrom(path + query, uri, 0)
    ensures RequestPath(prefix + uri + path + query, uri) == if path == "" then "/" else path
  {
    assert prefix + uri + path + query == prefix + uri + (path + query);
    SplitLastAfterSep(prefix, uri, path + query);
    BeforeQueryOf(path, query);
  }

  /** Cutting at the first '?' drops a query from a path without '?'. */
  lemma {:induction false} BeforeQueryOf(path: string, query: string)
    requires '?' !in path && (query == "" || query[0] == '?')
    ensures BeforeQuery(path + query) == path
  {
    if path != [] {
      assert (path + query)[1..] == path[1..] + query;
      BeforeQueryOf(path[1..], query);
    }
  }

  /** Two occurrences of an unbordered `sep` cannot overlap. */
  lemma NoOverlap(s: string, sep: string, a: nat, b: nat)
    requires Unbordered(sep)
    requires a < b < a + |sep|
    ensures !(OccursAt(s, sep, a) && OccursAt(s, sep, b))
  {
    var n, d := |sep|, b - a;
    if b + n <= |s| {
      assert s[a..a + n][d..] == s[b..a + n] == s[b..b + n][..n - d];
    }
  }

  /** A piece free of `sep` has no occurrence after whatever precedes it. */
  lemma NoOccurrenceAfter(x: string, tail: string, sep: string)
    requires NoOccurrenceFrom(tail, sep, 0)
    ensures NoOccurrenceFrom(x + tail, sep, |x|)
  {
    forall k: nat | |x| <= k ensures !OccursAt(x + tail, sep, k) {
      assert !OccursAt(tail, sep, k - |x|);
      if k + |sep| <= |x + tail| {
        assert (x + tail)[k..k + |sep|] == tail[k - |x|..k - |x| + |sep|];
      }
    }
  }

  /** After an unbordered `sep`, a piece that holds no `sep` is the last
      element of the split. */
  lemma SplitLastAfterSep(head: string, sep: string, tail: string)
    requires sep != "" && Unbordered(sep)
    requires NoOccurrenceFrom(tail, sep, 0)
    ensures SplitLast(head + sep + tail, sep) == tail
  {
    var s := head + sep + tail;
    var n := |sep|;
    var a := |head|;
    assert OccursAt(s, sep, a) by { assert s[a..a + n] == sep; }
    NoOccurrenceAfter(head + sep, tail, sep);
    var r := SplitLast(s, sep);
    var p := |s| - |r|;
    assert a < p;
    var b := p - n;
    assert OccursAt(s, sep, b);
    assert b < a + n;
    if a < b {
      NoOverlap(s, sep, a, b);
    } else if b < a {
      NoOverlap(s, sep, b, a);
    }
    assert s[a + n..] == tail;
  }

  /*************************************************************************
   * Process id of a pid request (handlers/rop.go:310-322)
   *************************************************************************/

  /** What `strconv.ParseUint(s, 0, 64)` returns: a value and, on failure, an error. */
  datatype ParsedUint = ParsedUint(value: u64, err: Option<Error>)

  type UintParser = string -> ParsedUint

  const CannotParsePid: Error := Error("Cannot parse PID.")

  /** `getPid`: the `pid` route variable ("" when absent) names the process;
      "" and "0" name the server's own process `selfPid`. */
  method GetPid(pidVar: string, selfPid: u64, parseUint: UintParser) returns (pid: u64, err: Option<Error>)
    ensures pidVar == "" || pidVar == "0" ==> pid == selfPid && err == None
    ensures pidVar != "" && pidVar != "0" ==>
              && pid == parseUint(pidVar).value
              && err == (if parseUint(pidVar).err.Some? then Some(CannotParsePid) else None)
  {
    err := None;
    pid := selfPid;
    if pidVar != "" && pidVar != "0" {
      var parsed := parseUint(pidVar);
      pid, err := parsed.value, parsed.err;
      if err.Some? {
        err := Some(CannotParsePid);
      }
    }
  }

  /*************************************************************************
   * Parameters of the regions query (handlers/rop.go:414-458)
   *************************************************************************/

  /** Go's `int(x)` of a `uint64` on a 64-bit platform. */
  function AsInt64(x: u64): (i: int)
    ensures -0x8000_0000_0000_0000 <= i < 0x8000_0000_0000_0000
    ensures (i - x as int) % TWO_TO_THE_64 == 0
  {
    if x < 0x8000_0000_0000_0000 then x as int else x as int - TWO_TO_THE_64
  }

  /** The arguments ROPMemoryRegionsHandler passes to `lib.ROPMemoryRegions`. */
  datatype RegionsQuery = RegionsQuery(pid: int, access: set<Access>)

  /** The parameter parsing of ROPMemoryRegionsHandler; a failure is answered
      with status 400 (Bad Request) and the error's message. */
  method ParseRegionsQuery(pidVar: string, selfPid: u64, parseUint: UintParser, accessRaw: string)
    returns (r: Result<RegionsQuery, Error>)
    ensures pidVar != "" && pidVar != "0" && parseUint(pidVar).err.Some? ==>
              r == Failure(parseUint(pidVar).err.value)
    ensures pidVar == "" || pidVar == "0" || parseUint(pidVar).err.None? ==>
              match AccessOf(ToUpper(accessRaw))
              case Failure(e) => r == Failure(e)
              case Success(access) =>
                r == Success(RegionsQuery(AsInt64(if pidVar == "" || pidVar == "0" then selfPid
                                                  else parseUint(pidVar).value), access))
  {
    var pidN := selfPid;
    if pidVar != "" && pidVar != "0" {
      var parsed := parseUint(pidVar);
      if parsed.err.Some? {
        return Failure(parsed.err.value);
      }
      pidN := parsed.value;
    }
    var access := ParseAccess(accessRaw);
    match access
    case Failure(e) =>
      r := Failure(e);
    case Success(flags) =>
      r := Success(RegionsQuery(AsInt64(pidN), flags));
  }
}
