/** The command-line helpers of src/lib/args_handler/args_handler.c. The
    argument vector is a sequence of strings, `argc` its length. */
module Args {
  import opened Common

  /** An argument that starts with '-'. */
  predicate IsFlag(s: string)
  {
    |s| > 0 && s[0] == '-'
  }

  /** The text `snprintf(buf, 64, "-%s", name)` leaves in its 64-byte
      buffer: "-" and the name, whole when its bytes fit in the 63 before
      the terminating NUL. A longer key is cut here after 63 characters. */
  function OptFormat(name: string): (f: string)
    ensures |f| <= 63 && |f| >= 1 && f[0] == '-'
    ensures Utf8Length(name) <= 62 ==> f == "-" + name
    ensures |name| <= 62 ==> f == "-" + name
  {
    var full := "-" + name;
    if |full| <= 63 then full else full[..63]
  }

  /** The argument after the first occurrence of `opt` at or after index
      `i`, looking only at positions that have a successor. */
  function ValueAfter(argv: seq<string>, opt: string, i: nat): Option<string>
    decreases |argv| - i
  {
    if i + 1 >= |argv| then None
    else if argv[i] == opt then Some(argv[i + 1])
    else ValueAfter(argv, opt, i + 1)
  }

  /** get_option_value: the argument after the first `-name` among
      argv[1..argc-2], none when there is no such argument. */
  method GetOptionValue(argv: seq<string>, name: string) returns (v: Option<string>)
    ensures v == ValueAfter(argv, OptFormat(name), 1)
  {
    var opt := OptFormat(name);
    var i := 1;
    while i < |argv| - 1
      invariant 1 <= i
      invariant ValueAfter(argv, opt, i) == ValueAfter(argv, opt, 1)
    {
      if argv[i] == opt {
        return Some(argv[i + 1]);
      }
      i := i + 1;
    }
    return None;
  }

  /** The value found is the one after the first occurrence, and none is
      found exactly when the option occurs nowhere with a successor. */
  lemma {:induction false} ValueAfterFirst(argv: seq<string>, opt: string, i: nat)
    ensures ValueAfter(argv, opt, i).Some? ==>
      exists p :: i <= p < |argv| - 1 && argv[p] == opt && ValueAfter(argv, opt, i).value == argv[p + 1] &&
                  opt !in argv[i..p]
    ensures ValueAfter(argv, opt, i).None? <==> forall p :: i <= p < |argv| - 1 ==> argv[p] != opt
    decreases |argv| - i
  {
    if i + 1 < |argv| && argv[i] != opt {
      ValueAfterFirst(argv, opt, i + 1);
    }
  }

  /** The pair-removal loop of get_command_suffix, from index `i`: an
      option followed by a non-option is deleted and the same index is
      examined again; otherwise the scan moves on. */
  function Stripped(a: seq<string>, i: nat): seq<string>
    decreases |a|, |a| - i
  {
    if i + 1 >= |a| then a
    else if IsFlag(a[i]) && !IsFlag(a[i + 1]) then Stripped(a[..i] + a[i + 2..], i)
    else Stripped(a, i + 1)
  }

  datatype Suffix = NoSuffix | Found(s: string) | MoreThanOne

  /** What get_command_suffix returns from the arguments left: the second
      of exactly two, NULL for fewer, and the fatal "more than one suffix"
      error for more. */
  function SuffixOf(a: seq<string>): Suffix
  {
    if |a| == 2 then Found(a[1]) else if |a| > 2 then MoreThanOne else NoSuffix
  }

  /** Removing the pair at `i` from the first `n` cells of `a`. */
  method RemovePair(a: array<string>, i: nat, n: nat)
    requires i + 1 < n <= a.Length
    modifies a
    ensures a[..n - 2] == old(a[..i]) + old(a[i + 2..n])
  {
    ghost var o := a[..];
    for j := i to n - 2
      invariant forall k | 0 <= k < i :: a[k] == o[k]
      invariant forall k | i <= k < j :: a[k] == o[k + 2]
      invariant forall k | j <= k < a.Length :: a[k] == o[k]
    {
      a[j] := a[j + 2];
    }
    assert a[..n - 2] == o[..i] + o[i + 2..n];
  }

  /** The pair-removal loop over the first `n` cells of `a`: afterwards
      the first `m` cells hold the stripped arguments. */
  method StripPairs(a: array<string>, n: nat) returns (m: nat)
    requires n <= a.Length
    modifies a
    ensures m <= n && a[..m] == Stripped(old(a[..n]), 1)
  {
    ghost var start := a[..n];
    m := n;
    var i := 1;
    while i < m - 1
      invariant 1 <= i && m <= n
      invariant Stripped(a[..m], i) == Stripped(start, 1)
      decreases m, m - i
    {
      if IsFlag(a[i]) && !IsFlag(a[i + 1]) {
        ghost var before := a[..m];
        RemovePair(a, i, m);
        assert a[..m - 2] == before[..i] + before[i + 2..];
        m := m - 2;
        i := i - 1;
      }
      i := i + 1;
    }
  }

  /** get_command_suffix: pairs are removed from a copy of the arguments
      (the caller's vector is left alone), then the suffix is read off. */
  method GetCommandSuffix(argv: seq<string>) returns (r: Suffix)
    ensures r == SuffixOf(Stripped(argv, 1))
  {
    var copy := new string[|argv|];
    for i := 0 to |argv|
      invariant copy[..i] == argv[..i]
    {
      copy[i] := argv[i];
    }
    assert copy[..|argv|] == argv;
    var n := StripPairs(copy, |argv|);
    if n == 2 {
      return Found(copy[n - 1]);
    } else if n > 2 {
      return MoreThanOne;
    }
    return NoSuffix;
  }

  /** Pairs are only removed at or after the scan position, so the
      arguments before it, the program name among them, stay in place, and
      the arguments left are a sub-sequence with an even number removed. */
  lemma {:induction false} StrippedKeepsPrefix(a: seq<string>, i: nat)
    requires i <= |a|
    ensures |Stripped(a, i)| <= |a| && (|a| - |Stripped(a, i)|) % 2 == 0
    ensures i <= |Stripped(a, i)| && Stripped(a, i)[..i] == a[..i]
    decreases |a|, |a| - i
  {
    if i + 1 >= |a| {
    } else if IsFlag(a[i]) && !IsFlag(a[i + 1]) {
      var b := a[..i] + a[i + 2..];
      StrippedKeepsPrefix(b, i);
      assert b[..i] == a[..i];
    } else {
      StrippedKeepsPrefix(a, i + 1);
    }
  }

  /** Because the scan does not step back after a removal, stripping is
      not idempotent: `prog -a -b x y` loses `-b x` and keeps `-a y`, which
      a second pass would remove. */
  lemma StripOnceIsNotEnough()
    ensures Stripped(["prog", "-a", "-b", "x", "y"], 1) == ["prog", "-a", "y"]
    ensures Stripped(["prog", "-a", "y"], 1) == ["prog"]
    ensures SuffixOf(Stripped(["prog", "-a", "-b", "x", "y"], 1)) == MoreThanOne
  {
    var a := ["prog", "-a", "-b", "x", "y"];
    assert !IsFlag(a[0]) && IsFlag(a[1]) && IsFlag(a[2]) && !IsFlag(a[3]) && !IsFlag(a[4]);
    assert !(IsFlag(a[1]) && !IsFlag(a[2]));
    var b := a[..2] + a[4..];
    assert b == ["prog", "-a", "y"];
    assert Stripped(a, 1) == Stripped(a, 2) == Stripped(b, 2) == b;
    assert Stripped(b, 1) == Stripped(["prog"], 1);
  }

  /** An option followed by the would-be suffix takes it as its value, so
      there is no suffix; a trailing option is kept as the suffix. */
  lemma {:induction false} OptionConsumesSuffix(prog: string, opt: string, arg: string)
    requires IsFlag(opt) && !IsFlag(arg)
    ensures SuffixOf(Stripped([prog, opt, arg], 1)) == NoSuffix
    ensures SuffixOf(Stripped([prog, opt], 1)) == Found(opt)
  {
    var a := [prog, opt, arg];
    assert a[..1] + a[3..] == [prog];
  }
}
