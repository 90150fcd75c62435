/** Naming of one landscape's export: the asset id split at '/', its last
    part, and that name followed by "_FAOforestdef". */
module ExportNaming {

  /** `s` does not contain `sep`. */
  predicate Free(s: string, sep: char) {
    forall k :: 0 <= k < |s| ==> s[k] != sep
  }

  /** Where the first separator is, if there is one. */
  datatype Found = NotFound | FoundAt(index: nat)

  /** The first position of `sep` in `s`. */
  function Find(s: string, sep: char): (f: Found)
    ensures f.NotFound? ==> Free(s, sep)
    ensures f.FoundAt? ==> f.index < |s| && s[f.index] == sep && Free(s[..f.index], sep)
  {
    if s == [] then NotFound
    else if s[0] == sep then FoundAt(0)
    else
      match Find(s[1..], sep)
      case NotFound => NotFound
      case FoundAt(i) =>
        assert s[..i + 1][1..] == s[1..][..i];
        FoundAt(i + 1)
  }

  /** String.prototype.split with a one-character separator: the text
      between consecutive separators, always at least one part. */
  function Split(s: string, sep: char): (parts: seq<string>)
    ensures |parts| >= 1
    decreases |s|
  {
    match Find(s, sep)
    case NotFound => [s]
    case FoundAt(i) => [s[..i]] + Split(s[i + 1..], sep)
  }

  /** No part of a split contains the separator. */
  lemma {:induction false} SplitPartsFree(s: string, sep: char)
    ensures forall i :: 0 <= i < |Split(s, sep)| ==> Free(Split(s, sep)[i], sep)
    decreases |s|
  {
    match Find(s, sep)
    case NotFound =>
    case FoundAt(i) =>
      SplitPartsFree(s[i + 1..], sep);
      var rest := Split(s[i + 1..], sep);
      forall k | 1 <= k < |Split(s, sep)| ensures Free(Split(s, sep)[k], sep) {
        assert Split(s, sep)[k] == rest[k - 1];
      }
  }

  /** Array.prototype.join, the inverse of Split. */
  function Join(parts: seq<string>, sep: char): string
    requires |parts| >= 1
  {
    if |parts| == 1 then parts[0] else parts[0] + [sep] + Join(parts[1..], sep)
  }

  /** Joining the parts gives back the string. */
  lemma {:induction false} JoinSplit(s: string, sep: char)
    ensures Join(Split(s, sep), sep) == s
    decreases |s|
  {
    match Find(s, sep)
    case NotFound =>
    case FoundAt(i) =>
      var rest := Split(s[i + 1..], sep);
      JoinSplit(s[i + 1..], sep);
      assert Split(s, sep)[1..] == rest;
      assert s == s[..i] + [sep] + s[i + 1..];
  }

  /** A separator right after a separator-free prefix is the first one. */
  lemma {:induction false} FindAfterFree(a: string, sep: char, b: string)
    requires Free(a, sep)
    ensures Find(a + [sep] + b, sep) == FoundAt(|a|)
  {
    if a != [] {
      assert (a + [sep] + b)[1..] == a[1..] + [sep] + b;
      FindAfterFree(a[1..], sep, b);
    }
  }

  /** The first separator of a string is still the first one when more
      text follows. */
  lemma {:induction false} FindInPrefix(a: string, sep: char, t: string)
    requires Find(a, sep).FoundAt?
    ensures Find(a + t, sep) == Find(a, sep)
  {
    if a[0] != sep {
      assert (a + t)[1..] == a[1..] + t;
      FindInPrefix(a[1..], sep, t);
    }
  }

  /** Splitting at a first separator right after a separator-free prefix. */
  lemma SplitAfterFree(a: string, sep: char, b: string)
    requires Free(a, sep)
    ensures Split(a + [sep] + b, sep) == [a] + Split(b, sep)
  {
    var s := a + [sep] + b;
    FindAfterFree(a, sep, b);
    assert s[..|a|] == a;
    assert s[|a| + 1..] == b;
  }

  /** Splitting a join of separator-free parts gives back the parts. */
  lemma {:induction false} SplitJoin(parts: seq<string>, sep: char)
    requires |parts| >= 1
    requires forall i :: 0 <= i < |parts| ==> Free(parts[i], sep)
    ensures Split(Join(parts, sep), sep) == parts
  {
    if |parts| > 1 {
      SplitAfterFree(parts[0], sep, Join(parts[1..], sep));
      SplitJoin(parts[1..], sep);
      assert parts == [parts[0]] + parts[1..];
    } else {
      assert Find(parts[0], sep).NotFound? by {
        if Find(parts[0], sep).FoundAt? {
          assert false;
        }
      }
    }
  }

  /** The last part of a split. */
  function LastPart(s: string, sep: char): string {
    var parts := Split(s, sep);
    parts[|parts| - 1]
  }

  /** Past the first separator, the last part is that of the rest. */
  lemma LastPartStep(s: string, sep: char, i: nat)
    requires Find(s, sep) == FoundAt(i)
    ensures LastPart(s, sep) == LastPart(s[i + 1..], sep)
  {
    var rest := Split(s[i + 1..], sep);
    assert Split(s, sep) == [s[..i]] + rest;
    assert Split(s, sep)[|rest|] == rest[|rest| - 1];
  }

  /** The last part of a split is the text after the last separator. */
  lemma {:induction false} LastPartIsSuffix(s: string, sep: char)
    ensures |LastPart(s, sep)| <= |s|
    ensures s[|s| - |LastPart(s, sep)|..] == LastPart(s, sep)
    ensures |LastPart(s, sep)| == |s| || s[|s| - |LastPart(s, sep)| - 1] == sep
    decreases |s|
  {
    match Find(s, sep)
    case NotFound =>
    case FoundAt(i) =>
      var tail := s[i + 1..];
      LastPartStep(s, sep, i);
      LastPartIsSuffix(tail, sep);
      var n := |LastPart(tail, sep)|;
      assert s[|s| - n..] == tail[|tail| - n..];
      if n < |tail| {
        assert s[|s| - n - 1] == tail[|tail| - n - 1];
      } else {
        assert s[|s| - n - 1] == s[i];
      }
  }

  /** Whatever precedes a separator does not change the last part. */
  lemma {:induction false} LastPartAfterSeparator(a: string, sep: char, b: string)
    ensures LastPart(a + [sep] + b, sep) == LastPart(b, sep)
    decreases |a|
  {
    var s := a + [sep] + b;
    match Find(a, sep)
    case NotFound =>
      FindAfterFree(a, sep, b);
      LastPartStep(s, sep, |a|);
      assert s[|a| + 1..] == b;
    case FoundAt(i) =>
      assert s == a + ([sep] + b);
      FindInPrefix(a, sep, [sep] + b);
      LastPartStep(s, sep, i);
      assert s[i + 1..] == a[i + 1..] + [sep] + b;
      LastPartAfterSeparator(a[i + 1..], sep, b);
  }

  /** assetId.split('/').pop(): the asset's own name. */
  function AssetName(assetId: string): (name: string)
    ensures Free(name, '/')
    ensures |name| <= |assetId| && assetId[|assetId| - |name|..] == name
    ensures |name| == |assetId| || assetId[|assetId| - |name| - 1] == '/'
  {
    LastPartIsSuffix(assetId, '/');
    SplitPartsFree(assetId, '/');
    LastPart(assetId, '/')
  }

  /** The name of an asset id is the text after its last '/', and an id
      without '/' is its own name. */
  lemma AssetNameIsLastSegment(prefix: string, name: string)
    requires Free(name, '/')
    ensures AssetName(prefix + "/" + name) == name
    ensures Free(prefix, '/') ==> AssetName(prefix) == prefix
  {
    assert prefix + "/" + name == prefix + ['/'] + name;
    LastPartAfterSeparator(prefix, '/', name);
    assert Find(name, '/').NotFound? by {
      if Find(name, '/').FoundAt? {
        assert false;
      }
    }
  }

  const Suffix := "_FAOforestdef"

  /** The description of the export: the asset name and the suffix that
      names the forest definition. */
  function Description(assetId: string): (d: string)
    ensures |d| == |AssetName(assetId)| + |Suffix|
    ensures d[..|AssetName(assetId)|] == AssetName(assetId)
    ensures d[|AssetName(assetId)|..] == Suffix
  {
    AssetName(assetId) + Suffix
  }

  /** The description of `prefix/name` is `name_FAOforestdef`, whatever
      folders the prefix names. */
  lemma DescriptionOfLastSegment(prefix: string, name: string)
    requires Free(name, '/')
    ensures Description(prefix + "/" + name) == name + "_FAOforestdef"
  {
    AssetNameIsLastSegment(prefix, name);
  }
}
