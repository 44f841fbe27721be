/**
 * The fast-store keys a cache node uses (CacheNode constructor): a string key
 * per entity under `cache:<node>:`, and the two set keys `dirty:<node>` and
 * `deleted:<node>`; and the way `getAll` turns a key back into an identifier,
 * `key.replace(prefix, "")`.
 */
module NodeKeys {

  function Prefix(node: string): string {
    "cache:" + node + ":"
  }

  function Key(node: string, id: string): string {
    Prefix(node) + id
  }

  function DirtyKey(node: string): string {
    "dirty:" + node
  }

  function DeletedKey(node: string): string {
    "deleted:" + node
  }

  /** Distinct identifiers have distinct cache keys within one node. */
  lemma KeyInjective(node: string, a: string, b: string)
    requires Key(node, a) == Key(node, b)
    ensures a == b
  {
    var p := Prefix(node);
    assert a == (p + a)[|p|..];
    assert b == (p + b)[|p|..];
  }

  /** The dirty set and the tombstone set of a node are different keys. */
  lemma SetKeysDiffer(node: string)
    ensures DirtyKey(node) != DeletedKey(node)
  {
    assert DirtyKey(node)[1] == 'i';
    assert DeletedKey(node)[1] == 'e';
  }

  /** Whether `target` occurs somewhere in `s`. */
  predicate Contains(s: string, target: string)
    decreases |s|
  {
    |s| >= |target| && (s[..|target|] == target || (|s| > 0 && Contains(s[1..], target)))
  }

  /**
   * `s.replace(target, "")`: scanning left to right, every occurrence of
   * `target` that does not overlap an earlier removed one is removed. Java
   * leaves `s` alone when `target` is empty.
   */
  function StripAll(s: string, target: string): string
    decreases |s|
  {
    if |target| == 0 || |s| < |target| then s
    else if s[..|target|] == target then StripAll(s[|target|..], target)
    else [s[0]] + StripAll(s[1..], target)
  }

  lemma {:induction false} StripAllShorter(s: string, target: string)
    requires |target| > 0
    ensures |StripAll(s, target)| <= |s|
    ensures Contains(s, target) ==> |StripAll(s, target)| < |s|
    decreases |s|
  {
    if |s| < |target| {
    } else if s[..|target|] == target {
      StripAllShorter(s[|target|..], target);
    } else {
      StripAllShorter(s[1..], target);
    }
  }

  /** Removing a non-empty target leaves `s` as it was exactly when `s` does not contain it. */
  lemma {:induction false} StripAllIdentity(s: string, target: string)
    requires |target| > 0
    ensures StripAll(s, target) == s <==> !Contains(s, target)
    decreases |s|
  {
    if |s| < |target| {
    } else if s[..|target|] == target {
      StripAllShorter(s, target);
    } else {
      StripAllIdentity(s[1..], target);
      assert s == [s[0]] + s[1..];
      if StripAll(s, target) == s {
        assert StripAll(s[1..], target) == StripAll(s, target)[1..];
      }
    }
  }

  /**
   * Stripping the prefix from a node's cache key recovers the identifier
   * exactly when the identifier does not itself contain the prefix.
   */
  lemma StripKeyRecoversId(node: string, id: string)
    ensures StripAll(Key(node, id), Prefix(node)) == id <==> !Contains(id, Prefix(node))
  {
    var p := Prefix(node);
    assert (p + id)[..|p|] == p;
    assert (p + id)[|p|..] == id;
    assert StripAll(Key(node, id), p) == StripAll(id, p);
    StripAllIdentity(id, p);
  }
}
