/**
 Splitting a pstore file name: the base name ends at the last dash, if that
 dash is not the first character and a digit follows it.
 */
module PstoreNames {

  type Name = seq<char>

  predicate IsDigit(c: char) { '0' <= c <= '9' }

  /** Index of the last dash; 0 when there is none or it comes first. */
  function LastDash(name: Name): (d: nat)
    ensures d <= |name|
    ensures d > 0 ==> d < |name| && name[d] == '-'
    ensures forall k :: d < k < |name| ==> name[k] != '-'
  {
    if name == [] then 0
    else if name[|name| - 1] == '-' then |name| - 1
    else LastDash(name[..|name| - 1])
  }

  predicate Splits(name: Name) {
    LastDash(name) > 0 && LastDash(name) + 1 < |name| && IsDigit(name[LastDash(name) + 1])
  }

  function BaseName(name: Name): Name {
    if Splits(name) then name[..LastDash(name)] else name
  }

  predicate DashFree(s: Name) {
    forall k :: 0 <= k < |s| ==> s[k] != '-'
  }

  /** A suffix that BaseName takes off: no dash, and a digit first. */
  predicate Numbering(suffix: Name) {
    suffix != [] && suffix[0] in "0123456789" && DashFree(suffix)
  }

  /** Any non-empty base survives having a number appended. */
  lemma BaseNameUndoesNumbering(base: Name, suffix: Name)
    requires base != [] && Numbering(suffix)
    ensures BaseName(base + "-" + suffix) == base
  {
    var name := base + "-" + suffix;
    assert name[|base|] == '-';
    assert forall k :: |base| < k < |name| ==> name[k] == suffix[k - |base| - 1];
    assert LastDash(name) == |base|;
    assert name[..|base|] == base;
  }

  /** Exactly the numbered names are shortened. */
  lemma ShortenedIffNumbered(name: Name, base: Name)
    ensures BaseName(name) == base && base != name
      <==> base != [] && exists suffix :: Numbering(suffix) && name == base + "-" + suffix
  {
    if BaseName(name) == base && base != name {
      var d := LastDash(name);
      var suffix := name[d + 1..];
      assert Numbering(suffix);
      assert name == base + "-" + suffix;
    }
    if base != [] && exists suffix :: Numbering(suffix) && name == base + "-" + suffix {
      var suffix :| Numbering(suffix) && name == base + "-" + suffix;
      BaseNameUndoesNumbering(base, suffix);
      assert |name| > |base|;
    }
  }

  // ----- the C function -----

  /** The string in a buffer: up to its NUL, or the first `maxlen` characters. */
  function StringIn(a: seq<char>, maxlen: nat): (s: Name)
    requires maxlen <= |a|
    ensures s <= a && |s| <= maxlen
    ensures forall k :: 0 <= k < |s| ==> s[k] != '\0'
    ensures |s| < maxlen ==> a[|s|] == '\0'
  {
    if maxlen == 0 || a[0] == '\0' then [] else [a[0]] + StringIn(a[1..], maxlen - 1)
  }

  /** For the string of length n in `a`, the length of the prefix kept. */
  function Cut(a: seq<char>, n: nat): nat
    requires n <= |a|
  {
    var d := LastDash(a[..n]);
    if d > 0 && d + 1 < |a| && IsDigit(a[d + 1]) then d else n
  }

  /**
   Copies and cuts. `filename` is terminated within `maxlen` characters, or at
   least one more character can be read behind them.
   */
  method GetBaseFilename(filename: array<char>, basefilename: array<char>, maxlen: nat) returns (filenameLen: nat)
    requires filename != basefilename && maxlen <= filename.Length && maxlen <= basefilename.Length
    requires |StringIn(filename[..], maxlen)| < maxlen || maxlen < filename.Length
    modifies basefilename
    ensures filenameLen <= maxlen && basefilename[..filenameLen] == filename[..filenameLen]
    ensures var n := |StringIn(filename[..], maxlen)|; filenameLen == Cut(filename[..], n)
    ensures filenameLen < maxlen ==> basefilename[filenameLen] == '\0'
  {
    ghost var a := filename[..];
    var lastOccurrence: nat;
    filenameLen, lastOccurrence := CopyName(filename, basefilename, maxlen);
    if lastOccurrence != 0 {
      if IsDigit(filename[lastOccurrence + 1]) {
        basefilename[lastOccurrence] := '\0';
        filenameLen := lastOccurrence;
      }
    }
  }

  /** The copying loop: the length of the string and the index of its last dash. */
  method CopyName(filename: array<char>, basefilename: array<char>, maxlen: nat)
    returns (filenameLen: nat, lastOccurrence: nat)
    requires filename != basefilename && maxlen <= filename.Length && maxlen <= basefilename.Length
    modifies basefilename
    ensures filenameLen == |StringIn(filename[..], maxlen)|
    ensures basefilename[..filenameLen] == filename[..filenameLen]
    ensures filenameLen < maxlen ==> basefilename[filenameLen] == '\0'
    ensures lastOccurrence == LastDash(filename[..filenameLen])
  {
    ghost var a, n := filename[..], |StringIn(filename[..], maxlen)|;
    filenameLen := maxlen;
    lastOccurrence := 0;
    var i := 0;
    while i < maxlen
      invariant 0 <= i <= n && filenameLen == maxlen
      invariant forall k :: 0 <= k < i ==> basefilename[k] == a[k]
      invariant lastOccurrence == LastDash(a[..i])
    {
      LastDashStep(a, i);
      if filename[i] == '-' {
        lastOccurrence := i;
      }
      basefilename[i] := filename[i];
      if filename[i] == '\0' {
        filenameLen := i;
        break;
      }
      i := i + 1;
    }
    assert filenameLen == n;
  }

  lemma LastDashStep(a: seq<char>, i: nat)
    requires i < |a|
    ensures LastDash(a[..i + 1]) == if a[i] == '-' then i else LastDash(a[..i])
  {
    assert a[..i + 1][..i] == a[..i];
  }

  /** For a terminated buffer the cut is BaseName of the string in it. */
  lemma CutIsBaseName(a: seq<char>, maxlen: nat)
    requires maxlen <= |a| && |StringIn(a, maxlen)| < maxlen
    ensures var s := StringIn(a, maxlen); a[..Cut(a, |s|)] == BaseName(s)
  {
    var s := StringIn(a, maxlen);
    assert a[..|s|] == s;
    var d := LastDash(s);
    assert d + 1 == |s| ==> a[d + 1] == '\0';
  }
}
