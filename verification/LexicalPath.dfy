/** `AK/LexicalPath.cpp`: canonical and relative paths. */
module LexicalPath {
  import opened Common

  // ---------- parts of a path ----------

  /** How many characters come before the first slash. */
  function Run(p: string): (n: nat)
    ensures n <= |p| && (n < |p| ==> p[n] == '/') && forall i :: 0 <= i < n ==> p[i] != '/'
  {
    if p == "" || p[0] == '/' then 0 else 1 + Run(p[1..])
  }

  /** The non-empty pieces between slashes. */
  function Parts(p: string): seq<string> {
    if p == "" then [] else if p[0] == '/' then Parts(p[1..]) else [p[..Run(p)]] + Parts(p[Run(p)..])
  }

  function Join(parts: seq<string>): string {
    if parts == [] then "" else if |parts| == 1 then parts[0] else parts[0] + "/" + Join(parts[1..])
  }

  ghost predicate Clean(part: string) {
    part != "" && '/' !in part
  }

  ghost predicate AllClean(parts: seq<string>) {
    forall i :: 0 <= i < |parts| ==> Clean(parts[i])
  }

  lemma {:induction false} PartsClean(p: string)
    ensures AllClean(Parts(p))
  {
    if p == "" {
    } else if p[0] == '/' {
      PartsClean(p[1..]);
    } else {
      PartsClean(p[Run(p)..]);
    }
  }

  /** A slash separates. */
  lemma {:induction false} PartsAcrossSlash(a: string, b: string)
    ensures Parts(a + "/" + b) == Parts(a) + Parts(b)
  {
    hide Parts, Run;
    var whole := a + "/" + b;
    if a == "" {
      assert whole[1..] == b;
      PartsSkip(whole);
    } else if a[0] == '/' {
      assert whole[1..] == a[1..] + "/" + b;
      PartsSkip(a);
      PartsSkip(whole);
      PartsAcrossSlash(a[1..], b);
    } else {
      var n := Run(a);
      RunPrefix(a, b);
      PartsStep(a);
      PartsStep(whole);
      assert whole[..n] == a[..n] && whole[n..] == a[n..] + "/" + b;
      PartsAcrossSlash(a[n..], b);
    }
  }

  lemma {:induction false} PartsSkip(p: string)
    requires p != "" && p[0] == '/'
    ensures Parts(p) == Parts(p[1..]) && Parts("") == []
  {
  }

  lemma {:induction false} PartsStep(p: string)
    requires p != "" && p[0] != '/'
    ensures Run(p) > 0 && Parts(p) == [p[..Run(p)]] + Parts(p[Run(p)..])
  {
  }

  lemma {:induction false} RunPrefix(a: string, b: string)
    ensures Run(a + "/" + b) == Run(a)
  {
    var whole := a + "/" + b;
    var n := Run(a);
    assert n < |whole| && whole[n] == '/';
    assert forall i :: 0 <= i < n ==> whole[i] == a[i];
    RunUnique(whole, n);
  }

  lemma {:induction false} RunUnique(p: string, n: nat)
    requires n <= |p| && (n < |p| ==> p[n] == '/') && forall i :: 0 <= i < n ==> p[i] != '/'
    ensures Run(p) == n
  {
  }

  lemma {:induction false} PartsOfOne(part: string)
    requires Clean(part)
    ensures Parts(part) == [part]
  {
    RunUnique(part, |part|);
    assert part[0] != '/';
    assert part[|part|..] == "" && part[..|part|] == part;
  }

  lemma {:induction false} PartsOfJoin(parts: seq<string>)
    requires AllClean(parts)
    ensures Parts(Join(parts)) == parts
  {
    if parts != [] {
      PartsOfOne(parts[0]);
      if |parts| > 1 {
        PartsAcrossSlash(parts[0], Join(parts[1..]));
        PartsOfJoin(parts[1..]);
      }
    }
  }

  /** A path with single slashes between its parts, and none at either end. */
  ghost predicate Tidy(q: string) {
    && q != "" && q[0] != '/' && q[|q| - 1] != '/'
    && forall i :: 0 <= i < |q| - 1 ==> !(q[i] == '/' && q[i + 1] == '/')
  }

  lemma {:induction false} TidyRest(q: string, n: nat)
    requires Tidy(q) && n < |q| && q[n] == '/'
    ensures n + 1 < |q| && Tidy(q[n + 1..])
  {
    var rest := q[n + 1..];
    assert q[n + 1] != '/';
    forall i | 0 <= i < |rest| - 1
      ensures !(rest[i] == '/' && rest[i + 1] == '/')
    {
      var k := n + 1 + i;
      assert !(q[k] == '/' && q[k + 1] == '/');
    }
  }

  lemma {:induction false} JoinOfParts(q: string)
    requires Tidy(q)
    ensures Join(Parts(q)) == q
  {
    var n := Run(q);
    if n == |q| {
      assert q[n..] == "" && q[..n] == q;
    } else {
      TidyRest(q, n);
      var rest := q[n + 1..];
      assert q[n..][1..] == rest && q[n..][0] == '/';
      assert Parts(q[n..]) == Parts(rest);
      assert q == q[..n] + "/" + rest;
      JoinOfParts(rest);
      assert Parts(q) == [q[..n]] + Parts(rest);
      assert Parts(q)[1..] == Parts(rest);
      assert Parts(rest) != [];
    }
  }

  // ---------- reducing the parts ----------

  /** What one part does to the canonical parts so far. */
  function Step(absolute: bool, stack: seq<string>, part: string): seq<string> {
    if part == "." then stack
    else if part == ".." && stack == [] && absolute then stack
    else if part == ".." && stack != [] && stack[|stack| - 1] != ".." then stack[..|stack| - 1]
    else stack + [part]
  }

  /** All parts, one after the other, on a given stack. */
  function Reduce(absolute: bool, stack: seq<string>, parts: seq<string>): seq<string>
    decreases |parts|
  {
    if parts == [] then stack else Reduce(absolute, Step(absolute, stack, parts[0]), parts[1..])
  }

  lemma {:induction false} ReduceAppend(absolute: bool, stack: seq<string>, a: seq<string>, b: seq<string>)
    ensures Reduce(absolute, stack, a + b) == Reduce(absolute, Reduce(absolute, stack, a), b)
    decreases |a|
  {
    if a == [] {
      assert a + b == b;
    } else {
      assert (a + b)[1..] == a[1..] + b && (a + b)[0] == a[0];
      ReduceAppend(absolute, Step(absolute, stack, a[0]), a[1..], b);
    }
  }

  lemma {:induction false} ReduceNext(absolute: bool, parts: seq<string>, i: nat)
    requires i < |parts|
    ensures Reduce(absolute, [], parts[..i + 1]) == Step(absolute, Reduce(absolute, [], parts[..i]), parts[i])
  {
    assert parts[..i + 1] == parts[..i] + [parts[i]];
    ReduceAppend(absolute, [], parts[..i], [parts[i]]);
    assert [parts[i]][1..] == [];
  }

  /** Canonical parts: no dot, and dots dots only in front of a relative path. */
  ghost predicate Reduced(absolute: bool, parts: seq<string>) {
    && AllClean(parts)
    && (forall i :: 0 <= i < |parts| ==> parts[i] != ".")
    && (absolute ==> forall i :: 0 <= i < |parts| ==> parts[i] != "..")
    && (forall i :: 0 < i < |parts| && parts[i] == ".." ==> parts[i - 1] == "..")
  }

  lemma {:induction false} ReduceIsReduced(absolute: bool, stack: seq<string>, parts: seq<string>)
    requires Reduced(absolute, stack) && AllClean(parts)
    ensures Reduced(absolute, Reduce(absolute, stack, parts))
    decreases |parts|
  {
    if parts != [] {
      ReduceIsReduced(absolute, Step(absolute, stack, parts[0]), parts[1..]);
    }
  }

  /** Parts that are canonical on top of the stack are pushed one by one. */
  lemma {:induction false} ReducePushes(absolute: bool, stack: seq<string>, parts: seq<string>)
    requires Reduced(absolute, stack + parts)
    ensures Reduce(absolute, stack, parts) == stack + parts
    decreases |parts|
  {
    if parts == [] {
      assert stack + parts == stack;
    } else {
      var all := stack + parts;
      assert all[|stack|] == parts[0] && (stack != [] ==> all[|stack| - 1] == stack[|stack| - 1]);
      assert Step(absolute, stack, parts[0]) == stack + [parts[0]];
      assert stack + [parts[0]] + parts[1..] == all;
      ReducePushes(absolute, stack + [parts[0]], parts[1..]);
    }
  }

  function Ups(n: nat): seq<string> {
    seq(n, _ => "..")
  }

  lemma {:induction false} ReduceUp(stack: seq<string>, n: nat)
    requires Reduced(true, stack) && 0 < n <= |stack|
    ensures Reduce(true, stack, Ups(n)) == Reduce(true, stack[..|stack| - 1], Ups(n - 1))
  {
    assert Ups(n)[1..] == Ups(n - 1) && Ups(n)[0] == "..";
    assert Step(true, stack, "..") == stack[..|stack| - 1];
  }

  lemma {:induction false} PoppedReduced(stack: seq<string>)
    requires Reduced(true, stack) && stack != []
    ensures Reduced(true, stack[..|stack| - 1])
  {
  }

  /** Each step up takes the last part off. */
  lemma {:induction false} ReducePops(stack: seq<string>, n: nat)
    requires Reduced(true, stack) && n <= |stack|
    ensures Reduce(true, stack, Ups(n)) == stack[..|stack| - n]
  {
    if n == 0 {
      assert stack[..|stack|] == stack;
    } else {
      var popped := stack[..|stack| - 1];
      ReduceUp(stack, n);
      PoppedReduced(stack);
      hide Reduced, Reduce, Ups;
      ReducePops(popped, n - 1);
      assert popped[..|popped| - (n - 1)] == stack[..|stack| - n];
    }
  }

  // ---------- canonical paths ----------

  predicate IsAbsolute(path: string) {
    path != "" && path[0] == '/'
  }

  /** The text of a path with the given canonical parts. */
  function Text(absolute: bool, parts: seq<string>): string {
    if absolute then "/" + Join(parts) else if parts == [] then "." else Join(parts)
  }

  /** The full algorithm, as a function. */
  function Canonical(path: string): string {
    if path == "" then "." else Text(IsAbsolute(path), Reduce(IsAbsolute(path), [], Parts(path)))
  }

  predicate Contains(path: string, c: char) {
    exists i :: 0 <= i < |path| && path[i] == c
  }

  predicate HasDoubleSlash(path: string) {
    exists i :: 0 <= i < |path| - 1 && path[i] == '/' && path[i + 1] == '/'
  }

  lemma {:induction false} PartsOfDotless(p: string)
    requires '.' !in p
    ensures forall i :: 0 <= i < |Parts(p)| ==> '.' !in Parts(p)[i]
  {
    if p == "" {
    } else if p[0] == '/' {
      PartsOfDotless(p[1..]);
    } else {
      PartsOfDotless(p[Run(p)..]);
    }
  }

  /** The early return: a path without dots, double slashes and final slash is canonical. */
  lemma {:induction false} AlreadyCanonical(path: string)
    requires path != "" && '.' !in path && !HasDoubleSlash(path) && path[|path| - 1] != '/'
    ensures Canonical(path) == path
  {
    var absolute := IsAbsolute(path);
    var parts := Parts(path);
    PartsClean(path);
    PartsOfDotless(path);
    assert forall i :: 0 <= i < |parts| ==> parts[i] != "." && parts[i] != ".." by {
      forall i | 0 <= i < |parts|
        ensures parts[i] != "." && parts[i] != ".."
      {
        assert '.' !in parts[i];
        assert "."[0] == '.' && ".."[0] == '.';
      }
    }
    assert [] + parts == parts;
    ReducePushes(absolute, [], parts);
    if absolute {
      assert path == "/" + path[1..];
      JoinOfParts(path[1..]);
    } else {
      JoinOfParts(path);
    }
  }

  /** The parts and the kind of a canonical text. */
  lemma {:induction false} TextParts(absolute: bool, parts: seq<string>)
    requires AllClean(parts)
    ensures Text(absolute, parts) != "" && IsAbsolute(Text(absolute, parts)) == absolute
    ensures Parts(Text(absolute, parts)) == if !absolute && parts == [] then ["."] else parts
  {
    PartsOfJoin(parts);
    if absolute {
      assert ("/" + Join(parts))[1..] == Join(parts);
    } else if parts == [] {
      PartsOfOne(".");
    } else {
      assert Clean(parts[0]);
      assert Join(parts)[0] == parts[0][0];
    }
  }

  /** A canonical path is its own canonical path. */
  lemma {:induction false} CanonicalIdempotent(path: string)
    ensures Canonical(Canonical(path)) == Canonical(path)
  {
    if path == "" {
      TextParts(false, []);
    } else {
      var absolute := IsAbsolute(path);
      PartsClean(path);
      ReduceIsReduced(absolute, [], Parts(path));
      var parts := Reduce(absolute, [], Parts(path));
      TextParts(absolute, parts);
      assert [] + parts == parts;
      ReducePushes(absolute, [], parts);
    }
  }

  // ---------- what a path means ----------

  /** One part leads to the directory itself, to its parent, or into a directory in it; above the root is the root. */
  function Go(dir: seq<string>, part: string): seq<string> {
    if part == "." then dir
    else if part == ".." then (if dir == [] then [] else dir[..|dir| - 1])
    else dir + [part]
  }

  function Follow(dir: seq<string>, parts: seq<string>): seq<string> {
    if parts == [] then dir else Go(Follow(dir, parts[..|parts| - 1]), parts[|parts| - 1])
  }

  /** The directory that a path leads to. */
  function Walk(dir: seq<string>, path: string): seq<string> {
    Follow(if IsAbsolute(path) then [] else dir, Parts(path))
  }

  lemma {:induction false} FollowNothing(dir: seq<string>)
    ensures Follow(dir, []) == dir
  {
  }

  lemma {:induction false} FollowLast(dir: seq<string>, parts: seq<string>, p: string)
    ensures Follow(dir, parts + [p]) == Go(Follow(dir, parts), p)
  {
    assert (parts + [p])[..|parts|] == parts;
  }

  /** What a part does to the canonical parts it does to the place they lead to. */
  lemma {:induction false} StepGoes(absolute: bool, dir: seq<string>, stack: seq<string>, p: string)
    requires Reduced(absolute, stack) && (absolute ==> dir == [])
    ensures Follow(dir, Step(absolute, stack, p)) == Go(Follow(dir, stack), p)
  {
    hide Follow;
    FollowNothing(dir);
    if p == ".." && stack != [] && stack[|stack| - 1] != ".." {
      var n := |stack| - 1;
      assert stack == stack[..n] + [stack[n]];
      FollowLast(dir, stack[..n], stack[n]);
      assert (Follow(dir, stack[..n]) + [stack[n]])[..|Follow(dir, stack[..n])|] == Follow(dir, stack[..n]);
    } else if p != "." && !(p == ".." && stack == [] && absolute) {
      FollowLast(dir, stack, p);
    }
  }

  /** Reduced parts lead where the parts lead. */
  lemma {:induction false} ReduceGoes(absolute: bool, dir: seq<string>, parts: seq<string>)
    requires AllClean(parts) && (absolute ==> dir == [])
    ensures Follow(dir, Reduce(absolute, [], parts)) == Follow(dir, parts)
    decreases |parts|
  {
    hide Reduced, Step, Go;
    if parts != [] {
      var n := |parts| - 1;
      var init, p := parts[..n], parts[n];
      assert parts == init + [p];
      ReduceGoes(absolute, dir, init);
      NothingReduced(absolute);
      ReduceIsReduced(absolute, [], init);
      ReduceAppend(absolute, [], init, [p]);
      assert [p][1..] == [];
      StepGoes(absolute, dir, Reduce(absolute, [], init), p);
    }
  }

  lemma {:induction false} NothingReduced(absolute: bool)
    ensures Reduced(absolute, [])
  {
  }

  /** The canonical parts of a path, and its canonical text. */
  ghost function CanonicalParts(path: string): seq<string> {
    Reduce(IsAbsolute(path), [], Parts(path))
  }

  lemma {:induction false} CanonicalText(path: string)
    ensures Reduced(IsAbsolute(path), CanonicalParts(path))
    ensures Canonical(path) == Text(IsAbsolute(path), CanonicalParts(path))
  {
    PartsClean(path);
    ReduceIsReduced(IsAbsolute(path), [], Parts(path));
  }

  lemma {:induction false} WalkCanonical(dir: seq<string>, path: string)
    ensures Walk(dir, path) == Follow(if IsAbsolute(path) then [] else dir, CanonicalParts(path))
  {
    PartsClean(path);
    ReduceGoes(IsAbsolute(path), if IsAbsolute(path) then [] else dir, Parts(path));
  }

  /** From every directory, a path and its canonical path lead to the same place. */
  lemma {:induction false} CanonicalKeepsMeaning(dir: seq<string>, path: string)
    ensures Walk(dir, Canonical(path)) == Walk(dir, path)
  {
    WalkCanonical(dir, path);
    CanonicalText(path);
    TextParts(IsAbsolute(path), CanonicalParts(path));
    assert ["."][..0] == [];
  }

  /** A name leads into the directory of that name. */
  lemma {:induction false} FollowNames(dir: seq<string>, names: seq<string>)
    requires Reduced(true, names)
    ensures Follow(dir, names) == dir + names
    decreases |names|
  {
    if names != [] {
      var n := |names| - 1;
      FollowNames(dir, names[..n]);
      assert names == names[..n] + [names[n]];
    }
  }

  lemma {:induction false} FollowAppend(dir: seq<string>, a: seq<string>, b: seq<string>)
    ensures Follow(dir, a + b) == Follow(Follow(dir, a), b)
    decreases |b|
  {
    if b == [] {
      assert a + b == a;
    } else {
      var n := |b| - 1;
      assert (a + b)[..|a| + n] == a + b[..n];
      FollowAppend(dir, a, b[..n]);
    }
  }

  lemma {:induction false} FollowUps(dir: seq<string>, n: nat)
    requires n <= |dir|
    ensures Follow(dir, Ups(n)) == dir[..|dir| - n]
  {
    if n > 0 {
      FollowUps(dir, n - 1);
      assert Ups(n)[..n - 1] == Ups(n - 1);
    }
  }

  /** Canonical relative parts lead up and then down. */
  lemma {:induction false} UpsThenNames(parts: seq<string>) returns (k: nat)
    requires Reduced(false, parts)
    ensures k <= |parts| && parts == Ups(k) + parts[k..] && Reduced(true, parts[k..])
    decreases |parts|
  {
    hide Reduced, Ups;
    if parts == [] || parts[0] != ".." {
      k := 0;
      NoUpsBehind(parts);
      UpsMore(0);
      assert parts[0..] == parts;
    } else {
      var rest := parts[1..];
      ReducedRest(parts);
      var r := UpsThenNames(rest);
      k := r + 1;
      assert parts[k..] == rest[r..];
      UpsMore(r);
    }
  }

  lemma {:induction false} ReducedRest(parts: seq<string>)
    requires Reduced(false, parts) && parts != []
    ensures Reduced(false, parts[1..])
  {
    var rest := parts[1..];
    forall i | 0 < i < |rest| && rest[i] == ".."
      ensures rest[i - 1] == ".."
    {
      var k := i + 1;
      assert parts[k] == "..";
    }
  }

  lemma {:induction false} UpsMore(n: nat)
    ensures Ups(0) == [] && Ups(n + 1) == [".."] + Ups(n)
  {
  }

  lemma {:induction false} NoUpsBehind(parts: seq<string>)
    requires Reduced(false, parts) && (parts != [] ==> parts[0] != "..")
    ensures Reduced(true, parts)
    decreases |parts|
  {
    if parts != [] {
      var n := |parts| - 1;
      NoUpsBehind(parts[..n]);
      assert forall i :: 0 <= i < n ==> parts[i] == parts[..n][i] != "..";
      assert n > 0 && parts[n] == ".." ==> parts[n - 1] == "..";
    }
  }

  lemma {:induction false} FollowUpsThenNames(dir: seq<string>, k: nat, names: seq<string>)
    requires k <= |dir| && Reduced(true, names)
    ensures Follow(dir, Ups(k) + names) == dir[..|dir| - k] + names
  {
    FollowAppend(dir, Ups(k), names);
    FollowUps(dir, k);
    FollowNames(dir[..|dir| - k], names);
  }

  /** A directory `n` levels below the root, all of one name. */
  function Deep(name: string, n: nat): seq<string> {
    seq(n, _ => name)
  }

  ghost predicate IsName(part: string) {
    Clean(part) && part != "." && part != ".."
  }

  lemma {:induction false} DeepIsReal(name: string, n: nat)
    requires IsName(name)
    ensures Reduced(true, Deep(name, n))
  {
  }

  /** A name that differs from the first of the given ones. */
  function OtherName(names: seq<string>): string {
    if names == [] then "a" else names[0] + "a"
  }

  lemma {:induction false} OtherIsName(names: seq<string>)
    requires Reduced(true, names)
    ensures IsName(OtherName(names)) && (names != [] ==> OtherName(names) != names[0])
  {
    if names != [] {
      var x := names[0] + "a";
      assert x[|names[0]|] == 'a' && |x| == |names[0]| + 1 && Clean(names[0]);
      assert "."[0] == '.' && ".."[0] == '.' && ".."[1] == '.';
    }
  }

  /** Two ways up and down that lead to the same place do not differ in how far they go up. */
  lemma {:induction false} NoLessUps(k: nat, names: seq<string>, l: nat, names': seq<string>, name: string)
    requires k < l && (names' != [] ==> names'[0] != name)
    ensures Deep(name, k + l)[..l] + names != Deep(name, k + l)[..k] + names'
  {
    var here, there := Deep(name, k + l)[..l] + names, Deep(name, k + l)[..k] + names';
    assert here[k] == name && (names' != [] ==> there[k] == names'[0]);
  }

  /** Canonical relative parts that lead to the same place from every directory are equal. */
  lemma {:induction false} SameRelative(a: seq<string>, b: seq<string>)
    requires Reduced(false, a) && Reduced(false, b)
    requires forall dir :: Reduced(true, dir) ==> Follow(dir, a) == Follow(dir, b)
    ensures a == b
  {
    var k := UpsThenNames(a);
    var l := UpsThenNames(b);
    hide Follow, Reduced, Ups;
    SameUps(a, b, k, l, a[k..], b[l..]);
  }

  lemma {:induction false} SamePlace(a: seq<string>, b: seq<string>, k: nat, l: nat, names: seq<string>, names': seq<string>, name: string)
    requires a == Ups(k) + names && b == Ups(l) + names' && Reduced(true, names) && Reduced(true, names') && IsName(name)
    requires forall dir :: Reduced(true, dir) ==> Follow(dir, a) == Follow(dir, b)
    ensures Deep(name, k + l)[..l] + names == Deep(name, k + l)[..k] + names'
  {
    hide Follow, Reduced, Ups, IsName;
    DeepIsReal(name, k + l);
    FollowUpsThenNames(Deep(name, k + l), k, names);
    FollowUpsThenNames(Deep(name, k + l), l, names');
  }

  lemma {:induction false} SameUps(a: seq<string>, b: seq<string>, k: nat, l: nat, names: seq<string>, names': seq<string>)
    requires a == Ups(k) + names && b == Ups(l) + names' && Reduced(true, names) && Reduced(true, names')
    requires forall dir :: Reduced(true, dir) ==> Follow(dir, a) == Follow(dir, b)
    ensures a == b
  {
    hide Follow, Reduced, Ups, IsName;
    OtherIsName(names);
    OtherIsName(names');
    var x, y := OtherName(names), OtherName(names');
    SamePlace(a, b, k, l, names, names', y);
    if k < l {
      NoLessUps(k, names, l, names', y);
    } else if l < k {
      SamePlace(b, a, l, k, names', names, x);
      NoLessUps(l, names', k, names, x);
    } else {
      assert names == (Deep(y, k + l)[..l] + names)[l..];
      assert names' == (Deep(y, k + l)[..k] + names')[k..];
    }
  }

  /** A relative path does not lead to one place from everywhere. */
  lemma {:induction false} NotOnePlace(place: seq<string>, parts: seq<string>) returns (dir: seq<string>)
    requires Reduced(false, parts) && Reduced(true, place)
    ensures Reduced(true, dir) && Follow(dir, parts) != place
  {
    var k := UpsThenNames(parts);
    hide Reduced, Follow, Ups;
    var names := parts[k..];
    var name := OtherName(place);
    OtherIsName(place);
    dir := Deep(name, k + 1);
    DeepIsReal(name, k + 1);
    FollowUpsThenNames(dir, k, names);
    assert (dir[..1] + names)[0] == name;
  }

  /** Two paths lead to the same place from every directory exactly when they have the same canonical path. */
  lemma {:induction false} CanonicalIsMeaning(path: string, other: string)
    ensures Canonical(path) == Canonical(other) <==> forall dir :: Reduced(true, dir) ==> Walk(dir, path) == Walk(dir, other)
  {
    if Canonical(path) == Canonical(other) {
      forall dir | Reduced(true, dir)
        ensures Walk(dir, path) == Walk(dir, other)
      {
        CanonicalKeepsMeaning(dir, path);
        CanonicalKeepsMeaning(dir, other);
      }
    }
    if forall dir :: Reduced(true, dir) ==> Walk(dir, path) == Walk(dir, other) {
      MeaningDecides(path, other);
    }
  }

  lemma {:induction false} MeaningDecides(path: string, other: string)
    requires forall dir :: Reduced(true, dir) ==> Walk(dir, path) == Walk(dir, other)
    ensures Canonical(path) == Canonical(other)
  {
    hide Follow, Reduced, Canonical, Walk, CanonicalParts;
    var a, b := CanonicalParts(path), CanonicalParts(other);
    CanonicalText(path);
    CanonicalText(other);
    forall dir | Reduced(true, dir)
      ensures Follow(if IsAbsolute(path) then [] else dir, a) == Follow(if IsAbsolute(other) then [] else dir, b)
    {
      WalkCanonical(dir, path);
      WalkCanonical(dir, other);
    }
    if IsAbsolute(path) {
      assert [] + a == a;
      FollowNames([], a);
    }
    if IsAbsolute(other) {
      assert [] + b == b;
      FollowNames([], b);
    }
    if IsAbsolute(path) && IsAbsolute(other) {
      NothingReduced(true);
      assert a == b;
    } else if IsAbsolute(path) {
      var dir := NotOnePlace(a, b);
      assert false;
    } else if IsAbsolute(other) {
      var dir := NotOnePlace(b, a);
      assert false;
    } else {
      SameRelative(a, b);
    }
  }

  // ---------- the text of a canonical path ----------

  /** What a canonical text looks like: no slash at its end, no two in a row, no dot part but for ".", and going up
      only at the front of a relative path. */
  ghost predicate CanonicalForm(text: string) {
    || text == "." || text == "/"
    || (text != "" && Tidy(if text[0] == '/' then text[1..] else text) && Reduced(text[0] == '/', Parts(text)))
  }

  lemma {:induction false} CleanIsTidy(part: string)
    requires Clean(part)
    ensures Tidy(part)
  {
    assert part[0] in part && part[|part| - 1] in part;
    assert forall i :: 0 <= i < |part| ==> part[i] in part;
  }

  lemma {:induction false} TidyBeside(a: string, b: string)
    requires Tidy(a) && Tidy(b)
    ensures Tidy(a + "/" + b)
  {
    var q, n := a + "/" + b, |a|;
    assert q[0] == a[0] && q[|q| - 1] == b[|b| - 1];
    forall i | 0 <= i < |q| - 1
      ensures !(q[i] == '/' && q[i + 1] == '/')
    {
      if i < n - 1 {
        assert q[i] == a[i] && q[i + 1] == a[i + 1];
      } else if i == n - 1 {
        assert q[i] == a[n - 1];
      } else if i == n {
        assert q[i + 1] == b[0];
      } else {
        var k := i - n - 1;
        assert q[i] == b[k] && q[i + 1] == b[k + 1];
      }
    }
  }

  lemma {:induction false} JoinIsTidy(parts: seq<string>)
    requires AllClean(parts) && parts != []
    ensures Tidy(Join(parts))
  {
    CleanIsTidy(parts[0]);
    if |parts| > 1 {
      JoinIsTidy(parts[1..]);
      TidyBeside(parts[0], Join(parts[1..]));
    }
  }

  /** The text of canonical parts has that form. */
  lemma {:induction false} TextIsCanonical(absolute: bool, parts: seq<string>)
    requires Reduced(absolute, parts)
    ensures CanonicalForm(Text(absolute, parts))
  {
    TextParts(absolute, parts);
    if parts != [] {
      JoinIsTidy(parts);
      assert ("/" + Join(parts))[1..] == Join(parts);
    }
  }

  lemma {:induction false} CanonicalHasForm(path: string)
    ensures CanonicalForm(Canonical(path))
  {
    CanonicalText(path);
    TextIsCanonical(IsAbsolute(path), CanonicalParts(path));
  }

  lemma {:induction false} TidyFixed(text: string, absolute: bool, q: string)
    requires text == (if absolute then "/" + q else q) && Tidy(q) && Reduced(absolute, Parts(text))
    ensures Canonical(text) == text
  {
    hide Tidy, Reduced;
    assert q != "" && q[0] != '/' by {
      TidyStarts(q);
    }
    assert absolute ==> text[1..] == q;
    assert Parts(text) == Parts(q);
    assert [] + Parts(text) == Parts(text);
    ReducePushes(absolute, [], Parts(text));
    JoinOfParts(q);
    PartsStep(q);
  }

  lemma {:induction false} TidyStarts(q: string)
    requires Tidy(q)
    ensures q != "" && q[0] != '/'
  {
  }

  /** Exactly the texts of that form are their own canonical paths. */
  lemma {:induction false} FormIsFixed(text: string)
    ensures CanonicalForm(text) <==> Canonical(text) == text
  {
    hide Canonical, Tidy, Reduced;
    CanonicalHasForm(text);
    if text == "." {
      DotFixed();
    } else if text == "/" {
      RootFixed();
    } else if CanonicalForm(text) {
      var absolute := text[0] == '/';
      var q := if absolute then text[1..] else text;
      assert absolute ==> text == "/" + q;
      TidyFixed(text, absolute, q);
    }
  }

  lemma {:induction false} DotFixed()
    ensures Canonical(".") == "."
  {
    TextParts(false, []);
    assert ["."][1..] == [];
  }

  lemma {:induction false} RootFixed()
    ensures Canonical("/") == "/"
  {
    assert Parts("/") == [];
  }

  /** A text of canonical form that leads where a path leads from every directory is the canonical path. */
  lemma {:induction false} OnlyCanonical(path: string, text: string)
    ensures (CanonicalForm(text) && forall dir :: Reduced(true, dir) ==> Walk(dir, text) == Walk(dir, path))
      <==> text == Canonical(path)
  {
    FormIsFixed(text);
    CanonicalIsMeaning(text, path);
    CanonicalIdempotent(path);
  }

  /** `canonicalized_path`: its early return and its loop both give the text of canonical form that leads where the
      path leads. */
  method CanonicalizedPath(path: string) returns (r: string)
    ensures r == Canonical(path) && CanonicalForm(r)
    ensures forall dir :: Reduced(true, dir) ==> Walk(dir, r) == Walk(dir, path)
  {
    hide Canonical, CanonicalForm, Reduce, Reduced, Walk, Parts, Join, Step;
    OnlyCanonical(path, Canonical(path));
    if path == "" {
      CanonicalMeans(path);
      return ".";
    }
    if !Contains(path, '.') && !HasDoubleSlash(path) && path[|path| - 1] != '/' {
      AlreadyCanonical(path);
      return path;
    }
    var absolute := path[0] == '/';
    var parts := Parts(path);
    var canonicalParts: seq<string> := [];
    assert parts[..0] == [];
    ReduceNothing(absolute, []);
    for i := 0 to |parts|
      invariant canonicalParts == Reduce(absolute, [], parts[..i])
    {
      ReduceNext(absolute, parts, i);
      canonicalParts := PushPart(absolute, canonicalParts, parts[i]);
    }
    assert parts[..|parts|] == parts;
    CanonicalMeans(path);
    JoinOne(".");
    if canonicalParts == [] && !absolute {
      canonicalParts := ["."];
    }
    r := (if absolute then "/" else "") + Join(canonicalParts);
  }

  /** One round of the loop over the parts. */
  method PushPart(absolute: bool, stack: seq<string>, part: string) returns (r: seq<string>)
    ensures r == Step(absolute, stack, part)
  {
    if part == "." {
      return stack;
    }
    if part == ".." {
      if stack == [] {
        if absolute {
          return stack;
        }
      } else {
        if stack[|stack| - 1] != ".." {
          return stack[..|stack| - 1];
        }
      }
    }
    r := stack + [part];
  }

  lemma {:induction false} CanonicalMeans(path: string)
    ensures path == "" ==> Canonical(path) == "."
    ensures path != "" ==> Canonical(path) == Text(IsAbsolute(path), Reduce(IsAbsolute(path), [], Parts(path)))
  {
  }

  lemma {:induction false} ReduceNothing(absolute: bool, stack: seq<string>)
    ensures Reduce(absolute, stack, []) == stack
  {
  }

  lemma {:induction false} JoinOne(part: string)
    ensures Join([part]) == part
  {
  }

  // ---------- relative paths ----------

  ghost function AbsoluteParts(path: string): seq<string> {
    Reduce(true, [], Parts(path))
  }

  lemma {:induction false} AbsolutePath(path: string)
    requires IsAbsolute(path)
    ensures Canonical(path) == "/" + Join(AbsoluteParts(path))
    ensures Reduced(true, AbsoluteParts(path)) && Parts(Canonical(path)) == AbsoluteParts(path)
  {
    PartsClean(path);
    ReduceIsReduced(true, [], Parts(path));
    TextParts(true, AbsoluteParts(path));
  }

  /** Going on from a prefix is reducing on top of its parts. */
  lemma {:induction false} JoinedPath(prefix: string, rel: string, parts: seq<string>)
    requires IsAbsolute(prefix) && Reduce(true, AbsoluteParts(prefix), Parts(rel)) == parts
    ensures Canonical(prefix + "/" + rel) == "/" + Join(parts)
  {
    PartsAcrossSlash(prefix, rel);
    ReduceAppend(true, [], Parts(prefix), Parts(rel));
  }

  /** Staying where the prefix is. */
  lemma {:induction false} StayAt(prefix: string, path: string)
    requires IsAbsolute(prefix) && IsAbsolute(path) && Canonical(path) == Canonical(prefix)
    ensures Canonical(prefix + "/" + ".") == Canonical(path)
  {
    AbsolutePath(path);
    AbsolutePath(prefix);
    PartsOfOne(".");
    assert ["."][1..] == [];
    JoinedPath(prefix, ".", AbsoluteParts(prefix));
  }

  /** Going down from the prefix. */
  lemma {:induction false} GoDown(prefix: string, path: string, rel: string)
    requires IsAbsolute(prefix) && IsAbsolute(path)
    requires AbsoluteParts(path) == AbsoluteParts(prefix) + Parts(rel)
    ensures Canonical(prefix + "/" + rel) == Canonical(path)
  {
    AbsolutePath(path);
    ReducePushes(true, AbsoluteParts(prefix), Parts(rel));
    JoinedPath(prefix, rel, AbsoluteParts(path));
  }

  lemma {:induction false} UpAndDown(x: seq<string>, p: seq<string>, k: nat)
    requires Reduced(true, x) && Reduced(true, p) && k <= |p| && k <= |x| && p[..k] == x[..k]
    ensures Reduce(true, x, Ups(|x| - k) + p[k..]) == p
  {
    hide Reduce, Reduced, Ups;
    ReduceAppend(true, x, Ups(|x| - k), p[k..]);
    ReducePops(x, |x| - k);
    assert p[..k] + p[k..] == p;
    ReducePushes(true, p[..k], p[k..]);
  }

  /** Going up to a common part and down again. */
  lemma {:induction false} GoUpAndDown(prefix: string, path: string, rel: string, k: nat)
    requires IsAbsolute(prefix) && IsAbsolute(path)
    requires var p, x := AbsoluteParts(path), AbsoluteParts(prefix);
      && k <= |p| && k <= |x| && p[..k] == x[..k] && Parts(rel) == Ups(|x| - k) + p[k..]
    ensures Canonical(prefix + "/" + rel) == Canonical(path)
  {
    hide AbsoluteParts, Canonical, Reduce, Reduced, Ups, Parts, Join;
    AbsolutePath(path);
    AbsolutePath(prefix);
    UpAndDown(AbsoluteParts(prefix), AbsoluteParts(path), k);
    JoinedPath(prefix, rel, AbsoluteParts(path));
  }

  function UpsText(n: nat): string {
    if n == 0 then "" else UpsText(n - 1) + "../"
  }

  lemma {:induction false} JoinSnoc(parts: seq<string>, part: string)
    requires parts != []
    ensures Join(parts + [part]) == Join(parts) + "/" + part
  {
    if |parts| == 1 {
      assert (parts + [part])[1..] == [part];
    } else {
      assert (parts + [part])[1..] == parts[1..] + [part];
      JoinSnoc(parts[1..], part);
    }
  }

  /** The first part in which two paths differ. */
  method FirstDifference(a: seq<string>, b: seq<string>) returns (k: nat)
    ensures k <= |a| && k <= |b| && a[..k] == b[..k]
    ensures k < |a| && k < |b| ==> a[k] != b[k]
  {
    k := 0;
    while k < |a| && k < |b|
      invariant k <= |a| && k <= |b| && a[..k] == b[..k]
    {
      if a[k] != b[k] {
        break;
      }
      k := k + 1;
    }
  }

  // ---------- the shortest way ----------

  /** How many parts two directories have in common from the root on. */
  function Shared(a: seq<string>, b: seq<string>): (k: nat)
    ensures k <= |a| && k <= |b| && a[..k] == b[..k] && (k < |a| && k < |b| ==> a[k] != b[k])
  {
    if a == [] || b == [] || a[0] != b[0] then 0
    else
      assert a == [a[0]] + a[1..] && b == [b[0]] + b[1..];
      1 + Shared(a[1..], b[1..])
  }

  lemma {:induction false} SharedUnique(a: seq<string>, b: seq<string>, k: nat)
    requires k <= |a| && k <= |b| && a[..k] == b[..k] && (k < |a| && k < |b| ==> a[k] != b[k])
    ensures Shared(a, b) == k
  {
    var c := Shared(a, b);
    assert forall i :: 0 <= i < k ==> a[i] == a[..k][i] == b[..k][i] == b[i];
    assert forall i :: 0 <= i < c ==> a[i] == a[..c][i] == b[..c][i] == b[i];
  }

  /** How many steps, up or down, lie between two directories. */
  function Distance(a: seq<string>, b: seq<string>): int {
    |a| + |b| - 2 * Shared(a, b)
  }

  lemma {:induction false} DistanceDown(a: seq<string>, b: seq<string>, part: string)
    ensures Distance(a, b + [part]) <= Distance(a, b) + 1
  {
    hide Shared;
    var k, c := Shared(a, b), b + [part];
    if k == |b| < |a| && a[k] == part {
      assert a[..k + 1] == a[..k] + [part] && c[..k + 1] == b[..k] + [part];
      SharedUnique(a, c, k + 1);
    } else {
      assert c[..k] == b[..k];
      SharedUnique(a, c, k);
    }
  }

  lemma {:induction false} DistanceUp(a: seq<string>, b: seq<string>)
    requires b != []
    ensures Distance(a, b[..|b| - 1]) <= Distance(a, b) + 1
  {
    hide Shared;
    var k, c := Shared(a, b), b[..|b| - 1];
    if k == |b| {
      assert a[..k - 1] == a[..k][..k - 1] && c[..k - 1] == b[..k][..k - 1];
      SharedUnique(a, c, k - 1);
    } else {
      assert c[..k] == b[..k];
      SharedUnique(a, c, k);
    }
  }

  lemma {:induction false} DistanceNone(a: seq<string>)
    ensures Distance(a, a) == 0
  {
    SharedUnique(a, a, |a|);
  }

  /** Every part of a way leads at most one step further. */
  lemma {:induction false} NoShorterWay(dir: seq<string>, parts: seq<string>)
    ensures |parts| >= Distance(dir, Follow(dir, parts))
    decreases |parts|
  {
    hide Distance;
    if parts == [] {
      DistanceNone(dir);
    } else {
      var n := |parts| - 1;
      var there, part := Follow(dir, parts[..n]), parts[n];
      NoShorterWay(dir, parts[..n]);
      if part == ".." && there != [] {
        DistanceUp(dir, there);
      } else if part != "." && part != ".." {
        DistanceDown(dir, there, part);
      }
    }
  }

  /** Where a text leads from a prefix, part by part. */
  lemma {:induction false} JoinedFollows(prefix: string, rel: string)
    requires IsAbsolute(prefix)
    ensures AbsoluteParts(prefix + "/" + rel) == Follow(AbsoluteParts(prefix), Parts(rel))
  {
    hide Follow, Reduced;
    var parts, more := Parts(prefix), Parts(rel);
    PartsAcrossSlash(prefix, rel);
    PartsClean(prefix + "/" + rel);
    PartsClean(prefix);
    AbsoluteFollows(parts + more);
    AbsoluteFollows(parts);
    FollowAppend([], parts, more);
  }

  lemma {:induction false} AbsoluteFollows(parts: seq<string>)
    requires AllClean(parts)
    ensures Reduce(true, [], parts) == Follow([], parts)
  {
    hide Follow, Reduced, Reduce;
    NothingReduced(true);
    ReduceIsReduced(true, [], parts);
    ReduceGoes(true, [], parts);
    FollowNames([], Reduce(true, [], parts));
    assert [] + Reduce(true, [], parts) == Reduce(true, [], parts);
  }

  /** A text leads from the prefix to the path. */
  ghost predicate LeadsTo(prefix: string, q: string, path: string) {
    Canonical(prefix + "/" + q) == Canonical(path)
  }

  /** Every text that leads from the prefix to the path has at least as many parts as there are steps between them. */
  lemma {:induction false} NoShorterText(prefix: string, path: string, q: string)
    requires IsAbsolute(prefix) && IsAbsolute(path) && LeadsTo(prefix, q, path)
    ensures |Parts(q)| >= Distance(AbsoluteParts(prefix), AbsoluteParts(path))
  {
    hide Distance, Follow, AbsoluteParts, Reduced;
    AbsolutePath(path);
    AbsolutePath(prefix + "/" + q);
    JoinedFollows(prefix, q);
    NoShorterWay(AbsoluteParts(prefix), Parts(q));
  }

  /** The text of a way: single slashes, none in front, and one at the end exactly when it ends by going up. */
  ghost predicate WayForm(text: string) {
    && text != ""
    && Tidy(if text[|text| - 1] == '/' then text[..|text| - 1] else text)
    && Parts(text) != [] && "." !in Parts(text)
    && (text[|text| - 1] == '/' <==> Parts(text)[|Parts(text)| - 1] == "..")
  }

  /** The parts of the direct way between two directories. */
  ghost function Way(from: seq<string>, to: seq<string>): seq<string> {
    Ups(|from| - Shared(from, to)) + to[Shared(from, to)..]
  }

  lemma {:induction false} WayLength(from: seq<string>, to: seq<string>)
    ensures |Way(from, to)| == Distance(from, to)
  {
    hide Shared;
  }

  lemma {:induction false} UpsSnoc(n: nat, rest: seq<string>)
    requires n > 0
    ensures Ups(n) + rest == Ups(n - 1) + ([".."] + rest)
  {
  }

  lemma {:induction false} UpsJoined(n: nat, downs: seq<string>)
    requires downs != []
    ensures UpsText(n) + Join(downs) == Join(Ups(n) + downs)
  {
    if n == 0 {
      assert Ups(0) + downs == downs && UpsText(0) + Join(downs) == Join(downs);
    } else {
      var more := [".."] + downs;
      assert more[1..] == downs && more[0] == "..";
      assert Join(more) == ".." + "/" + Join(downs);
      assert UpsText(n) + Join(downs) == UpsText(n - 1) + Join(more);
      UpsJoined(n - 1, more);
      UpsSnoc(n, downs);
    }
  }

  lemma {:induction false} UpsAlone(n: nat)
    requires n > 0
    ensures UpsText(n) == Join(Ups(n)) + "/"
  {
    UpsJoined(n - 1, [".."]);
    JoinOne("..");
    assert Ups(n) == Ups(n - 1) + [".."];
    assert UpsText(n) == UpsText(n - 1) + ".." + "/";
  }

  lemma {:induction false} WayParts(n: nat, downs: seq<string>)
    requires Reduced(true, downs)
    ensures AllClean(Ups(n) + downs) && "." !in Ups(n) + downs
    ensures downs != [] ==> downs[|downs| - 1] != ".."
  {
    assert ".."[0] == '.' && Clean("..") && ".." != ".";
  }

  /** Going up, as text. */
  lemma {:induction false} UpText(parts: seq<string>)
    requires AllClean(parts) && "." !in parts && parts != [] && parts[|parts| - 1] == ".."
    ensures WayForm(Join(parts) + "/") && Parts(Join(parts) + "/") == parts
  {
    hide Tidy;
    var text := Join(parts) + "/";
    assert text[..|text| - 1] == Join(parts);
    PartsAcrossSlash(Join(parts), "");
    assert Join(parts) + "/" + "" == text;
    PartsOfJoin(parts);
    JoinIsTidy(parts);
  }

  /** Going down in the end, as text. */
  lemma {:induction false} DownText(parts: seq<string>)
    requires AllClean(parts) && "." !in parts && parts != [] && parts[|parts| - 1] != ".."
    ensures WayForm(Join(parts)) && Parts(Join(parts)) == parts
  {
    hide Tidy;
    TidyEnds(parts);
    PartsOfJoin(parts);
    JoinIsTidy(parts);
  }

  /** Going up and down, as text. */
  lemma {:induction false} WayText(n: nat, downs: seq<string>)
    requires Reduced(true, downs) && n + |downs| > 0
    ensures WayForm(UpsText(n) + Join(downs)) && Parts(UpsText(n) + Join(downs)) == Ups(n) + downs
  {
    hide Tidy, Reduced, Ups, UpsText, WayForm, Parts;
    var parts := Ups(n) + downs;
    WayParts(n, downs);
    UpsLength(n);
    if downs == [] {
      UpsAlone(n);
      assert parts == Ups(n) && UpsText(n) + Join(downs) == UpsText(n);
      UpText(parts);
    } else {
      UpsJoined(n, downs);
      DownText(parts);
    }
  }

  lemma {:induction false} UpsLength(n: nat)
    ensures |Ups(n)| == n && (n > 0 ==> Ups(n)[n - 1] == "..")
  {
  }

  lemma {:induction false} TidyEnds(parts: seq<string>)
    requires AllClean(parts) && parts != []
    ensures Join(parts) != "" && Join(parts)[|Join(parts)| - 1] != '/'
  {
    JoinIsTidy(parts);
  }

  /** No text that leads from the prefix to the path has fewer parts. */
  ghost predicate Shortest(prefix: string, text: string, path: string) {
    forall q :: LeadsTo(prefix, q, path) ==> |Parts(q)| >= |Parts(text)|
  }

  lemma {:induction false} WayIsShortest(prefix: string, path: string, text: string)
    requires IsAbsolute(prefix) && IsAbsolute(path)
    requires Parts(text) == Way(AbsoluteParts(prefix), AbsoluteParts(path))
    ensures Shortest(prefix, text, path)
  {
    hide Distance, AbsoluteParts, Way, LeadsTo, Parts;
    WayLength(AbsoluteParts(prefix), AbsoluteParts(path));
    forall q | LeadsTo(prefix, q, path)
      ensures |Parts(q)| >= |Parts(text)|
    {
      NoShorterText(prefix, path, q);
    }
  }

  /** The text of the direct way between two directories, given where they part. */
  lemma {:induction false} DirectWay(prefix: string, path: string, k: nat)
    requires IsAbsolute(prefix) && IsAbsolute(path) && AbsoluteParts(prefix) != AbsoluteParts(path)
    requires var x, p := AbsoluteParts(prefix), AbsoluteParts(path);
      && k <= |p| && k <= |x| && p[..k] == x[..k] && (k < |p| && k < |x| ==> p[k] != x[k])
    ensures var x, p := AbsoluteParts(prefix), AbsoluteParts(path);
            var text := UpsText(|x| - k) + Join(p[k..]);
            WayForm(text) && Shortest(prefix, text, path) && Parts(text) == Ups(|x| - k) + p[k..]
  {
    hide AbsoluteParts, WayForm, Shortest, Parts, Join, Shared;
    var x, p := AbsoluteParts(prefix), AbsoluteParts(path);
    AbsolutePath(prefix);
    AbsolutePath(path);
    SharedUnique(x, p, k);
    assert x[..|x|] == x && p[..|p|] == p;
    assert Reduced(true, p[k..]);
    hide Reduced;
    WayText(|x| - k, p[k..]);
    WayIsShortest(prefix, path, UpsText(|x| - k) + Join(p[k..]));
  }

  method BuildUps(n: nat) returns (text: string)
    ensures text == UpsText(n)
  {
    text := "";
    for i := 0 to n
      invariant text == UpsText(i)
    {
      text := text + "../";
    }
  }

  /** What the builder holds before part `i`. */
  ghost function Built(parts: seq<string>, i: nat): string
    requires i <= |parts|
  {
    Join(parts[..i]) + if 0 < i < |parts| then "/" else ""
  }

  lemma {:induction false} BuiltNext(parts: seq<string>, i: nat)
    requires i < |parts|
    ensures Built(parts, i + 1) == Built(parts, i) + parts[i] + (if i != |parts| - 1 then "/" else "")
  {
    assert parts[..i + 1] == parts[..i] + [parts[i]];
    if 0 < i {
      JoinSnoc(parts[..i], parts[i]);
    } else {
      assert parts[..0] == [];
    }
  }

  method BuildDowns(parts: seq<string>) returns (text: string)
    ensures text == Join(parts)
  {
    text := "";
    assert parts[..0] == [];
    for i := 0 to |parts|
      invariant text == Built(parts, i)
    {
      BuiltNext(parts, i);
      hide Built;
      text := text + parts[i];
      if i != |parts| - 1 {
        text := text + "/";
      }
    }
    assert parts[..|parts|] == parts;
  }

  /** The way from a prefix to a path: joined to the prefix it leads to the path, and no text that does has fewer
      parts. It is "." exactly when there is no way to go. */
  method RelativePath(aPath: string, aPrefix: string) returns (r: Option<string>)
    ensures r.None? <==> !IsAbsolute(aPath) || !IsAbsolute(aPrefix)
    ensures r.Some? ==> Canonical(aPrefix + "/" + r.value) == Canonical(aPath)
    ensures r.Some? ==> (r.value == "." <==> Canonical(aPath) == Canonical(aPrefix))
    ensures r.Some? && r.value != "." ==> WayForm(r.value) && Shortest(aPrefix, r.value, aPath)
  {
    hide Canonical, Parts, Join, AbsoluteParts, Reduced, Ups, UpsText, WayForm, Shortest, CanonicalForm, Walk;
    if !IsAbsolute(aPath) || !IsAbsolute(aPrefix) {
      return None;
    }
    if aPath == aPrefix {
      StayAt(aPrefix, aPath);
      return Some(".");
    }
    var path := CanonicalizedPath(aPath);
    var prefix := CanonicalizedPath(aPrefix);
    AbsolutePath(aPath);
    AbsolutePath(aPrefix);
    DotIsNoWay();
    if path == prefix {
      StayAt(aPrefix, aPath);
      return Some(".");
    }
    if prefix == "/" {
      UnderRoot(aPrefix, aPath);
      return Some(path[1..]);
    }
    if prefix <= path && path[|prefix|] == '/' {
      DirectChild(aPrefix, aPath);
      return Some(path[|prefix| + 1..]);
    }
    var pathParts, prefixParts := Parts(path), Parts(prefix);
    var k := FirstDifference(pathParts, prefixParts);
    var ups := BuildUps(|prefixParts| - k);
    var downs := BuildDowns(pathParts[k..]);
    DirectWay(aPrefix, aPath, k);
    GoUpAndDown(aPrefix, aPath, ups + downs, k);
    return Some(ups + downs);
  }

  lemma {:induction false} DotIsNoWay()
    ensures !WayForm(".")
  {
    PartsOfOne(".");
    assert Parts(".")[0] == ".";
  }

  lemma {:induction false} UnderRoot(prefix: string, path: string)
    requires IsAbsolute(prefix) && IsAbsolute(path) && Canonical(prefix) == "/"
    ensures |Canonical(path)| >= 1 && Canonical(prefix + "/" + Canonical(path)[1..]) == Canonical(path)
    ensures Canonical(path) != "/" ==> WayForm(Canonical(path)[1..]) && Shortest(prefix, Canonical(path)[1..], path)
  {
    hide WayForm, Shortest;
    AbsolutePath(path);
    AbsolutePath(prefix);
    assert Parts("/") == [];
    PartsOfJoin(AbsoluteParts(path));
    assert Canonical(path)[1..] == Join(AbsoluteParts(path));
    assert AbsoluteParts(prefix) + AbsoluteParts(path) == AbsoluteParts(path);
    GoDown(prefix, path, Canonical(path)[1..]);
    if Canonical(path) != "/" {
      NoUps(AbsoluteParts(path));
      DirectWay(prefix, path, 0);
    }
  }

  lemma {:induction false} NoUps(parts: seq<string>)
    ensures parts[0..] == parts && UpsText(0) + Join(parts) == Join(parts)
  {
  }

  lemma {:induction false} DirectChild(prefix: string, path: string)
    requires IsAbsolute(prefix) && IsAbsolute(path)
    requires var p, x := Canonical(path), Canonical(prefix); x < p && p[|x|] == '/'
    ensures Canonical(prefix + "/" + Canonical(path)[|Canonical(prefix)| + 1..]) == Canonical(path)
    ensures var rel := Canonical(path)[|Canonical(prefix)| + 1..]; WayForm(rel) && Shortest(prefix, rel, path)
  {
    hide Canonical, Parts, Join, AbsoluteParts, Reduced, WayForm, Shortest, Tidy;
    var p, x := Canonical(path), Canonical(prefix);
    var rel := p[|x| + 1..];
    AbsolutePath(path);
    AbsolutePath(prefix);
    assert p == x + "/" + rel;
    PartsAcrossSlash(x, rel);
    GoDown(prefix, path, rel);
    CanonicalHasForm(path);
    TidyBelow(p, |x|);
    JoinOfParts(rel);
    var k := |AbsoluteParts(prefix)|;
    var all := AbsoluteParts(path);
    assert all[..k] == AbsoluteParts(prefix) && all[k..] == Parts(rel);
    NoUps(Parts(rel));
    DirectWay(prefix, path, k);
  }

  /** What follows a slash inside a canonical absolute text. */
  lemma {:induction false} TidyBelow(p: string, n: nat)
    requires CanonicalForm(p) && 0 < n < |p| && p[0] == '/' && p[n] == '/'
    ensures n + 1 < |p| && Tidy(p[n + 1..]) && Parts(p[n + 1..]) != []
  {
    var q := p[1..];
    TidyRest(q, n - 1);
    assert q[n..] == p[n + 1..];
    PartsStep(p[n + 1..]);
  }
}
