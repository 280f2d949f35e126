/**
  Where an archive member lands: the leading run of a member name that is dropped before it is extracted.
 */
module TarNames {
  import opened Paths

  /** A component starts at `i`. */
  predicate Begins(name: string, i: nat) {
    i <= |name| && (i == 0 || name[i - 1] == '/')
  }

  /** The component that starts at `i` is `..`. */
  predicate DotDotAt(name: string, i: nat) {
    && Begins(name, i) && i + 2 <= |name| && name[i] == '.' && name[i + 1] == '.'
    && (i + 2 == |name| || name[i + 2] == '/')
  }

  predicate HasDotDot(name: string) {
    ".." in Split(name)
  }

  /** The first component, in characters. */
  lemma {:induction false} FirstComponent(name: string)
    ensures var first := Split(name)[0];
            |first| <= |name| && name[..|first|] == first && (|first| < |name| ==> name[|first|] == '/')
  {
    if name != "" && name[0] != '/' {
      FirstComponent(name[1..]);
    }
  }

  lemma {:induction false} LaterDotDot(name: string, i: nat)
    requires i > 0 && DotDotAt(name, i)
    ensures ".." in Split(name)[1..]
    decreases |name|
  {
    var rest := Split(name[1..]);
    if name[0] == '/' {
      assert Split(name)[1..] == rest;
      if i == 1 {
        FirstIsDotDot(name[1..]);
      } else {
        LaterDotDot(name[1..], i - 1);
      }
    } else {
      assert Split(name)[1..] == rest[1..];
      LaterDotDot(name[1..], i - 1);
    }
  }

  lemma FirstIsDotDot(name: string)
    ensures Split(name)[0] == ".." <==> DotDotAt(name, 0)
  {
    var first := Split(name)[0];
    FirstComponent(name);
    assert forall k :: 0 <= k < |first| ==> name[k] == first[k] && first[k] in first;
  }

  lemma {:induction false} LaterDotDotIsAt(name: string) returns (i: nat)
    requires ".." in Split(name)[1..]
    ensures i > 0 && DotDotAt(name, i)
    decreases |name|
  {
    var rest := Split(name[1..]);
    if name[0] == '/' && rest[0] == ".." {
      FirstIsDotDot(name[1..]);
      i := 1;
    } else {
      assert Split(name)[1..] == if name[0] == '/' then rest else rest[1..];
      var j := LaterDotDotIsAt(name[1..]);
      i := j + 1;
    }
  }

  /** Looking for `..` in the components is looking for it in the characters. */
  lemma DotDotIsSomewhere(name: string)
    ensures HasDotDot(name) <==> exists i :: DotDotAt(name, i)
  {
    FirstIsDotDot(name);
    var parts := Split(name);
    assert parts == [parts[0]] + parts[1..];
    if HasDotDot(name) && parts[0] != ".." {
      var i := LaterDotDotIsAt(name);
    }
    forall i | DotDotAt(name, i)
      ensures HasDotDot(name)
    {
      if i > 0 {
        LaterDotDot(name, i);
      }
    }
  }

  /** No `..` starts from `from` up to, but not at, `to`. */
  ghost predicate NoneBetween(name: string, from: int, to: nat) {
    forall j: nat {:trigger DotDotAt(name, j)} :: from < j < to ==> !DotDotAt(name, j)
  }

  /** Up to `n` comes all through a `..`, if `n` is not zero, and from `n` to `prefix` slashes. */
  ghost predicate LeadingRun(name: string, n: nat, prefix: nat) {
    && n <= prefix <= |name| && (n == 0 || (n >= 2 && DotDotAt(name, n - 2)))
    && forall k :: n <= k < prefix ==> name[k] == '/'
  }

  /** What is left of a member name: it does not start at the root, it goes nowhere upwards, and no more is
      dropped than everything through the last `..` and the slashes there. */
  method StripLeading(name: string) returns (prefix: nat)
    ensures prefix <= |name| && !HasDotDot(name[prefix..]) && !(prefix < |name| && name[prefix] == '/')
    ensures prefix == 0 <==> !HasDotDot(name) && !(name != "" && name[0] == '/')
    ensures exists n :: LeadingRun(name, n, prefix)
  {
    prefix := 0;
    var i: nat := 0;
    while i < |name|
      invariant prefix <= i <= |name|
      invariant i < |name| ==> Begins(name, i)
      invariant prefix == 0 || (prefix >= 2 && DotDotAt(name, prefix - 2))
      invariant NoneBetween(name, if prefix == 0 then -1 else prefix - 2, i)
    {
      ghost var start := i;
      if i + 2 <= |name| && name[i] == '.' && name[i + 1] == '.' && (i + 2 == |name| || name[i + 2] == '/') {
        prefix := i + 2;
      }
      while i < |name| && name[i] != '/'
        invariant start <= i <= |name|
        invariant forall k :: start <= k < i ==> name[k] != '/'
      {
        i := i + 1;
      }
      ghost var slash := i;
      while i < |name| && name[i] == '/'
        invariant slash <= i <= |name|
        invariant forall k :: slash <= k < i ==> name[k] == '/'
      {
        i := i + 1;
      }
    }
    ghost var n := prefix;
    while prefix < |name| && name[prefix] == '/'
      invariant n <= prefix <= |name|
      invariant forall k :: n <= k < prefix ==> name[k] == '/'
    {
      prefix := prefix + 1;
    }
    NothingUpwards(name, n, prefix);
    DotDotIsSomewhere(name);
    assert LeadingRun(name, n, prefix);
    assert n > 0 ==> DotDotAt(name, n - 2);
  }

  lemma NothingUpwards(name: string, n: nat, prefix: nat)
    requires n <= prefix <= |name| && (n == 0 || (n >= 2 && DotDotAt(name, n - 2)))
    requires NoneBetween(name, if n == 0 then -1 else n - 2, |name|)
    requires forall k :: n <= k < prefix ==> name[k] == '/'
    ensures !HasDotDot(name[prefix..])
  {
    var rest := name[prefix..];
    DotDotIsSomewhere(rest);
    forall j: nat | DotDotAt(rest, j)
      ensures false
    {
      assert DotDotAt(name, prefix + j);
    }
  }
}
