/** What the dependency texts of a lockfile mean, by the way they are spelled. */
module LockTexts {
  import opened LockScope

  /** A package by its name, by its name and version, or with its source as well. */
  datatype Spelling =
    | Bare(name: string)
    | Versioned(name: string, version: string)
    | Sourced(name: string, version: string, source: string)

  /** Names and versions hold no space, and a version that is written is not empty. */
  predicate Proper(p: Spelling) {
    && ' ' !in p.name
    && (!p.Bare? ==> p.version != "" && ' ' !in p.version)
  }

  function Text(p: Spelling): string {
    match p
    case Bare(name) => name
    case Versioned(name, version) => name + " " + version
    case Sourced(name, version, source) => name + " " + (version + " " + ("(" + source + ")"))
  }

  predicate Names(p: Spelling, k: Key) {
    match p
    case Bare(name) => k.name == name
    case Versioned(name, version) => k.name == name && k.version == version
    case Sourced(name, version, source) => k == Key(name, version, source)
  }

  lemma {:induction false} SpaceAfter(word: string, rest: string)
    requires ' ' !in word
    ensures FirstSpace(word) == |word| && FirstSpace(word + " " + rest) == |word|
  {
    if word != "" {
      SpaceAfter(word[1..], rest);
      assert (word + " " + rest)[1..] == word[1..] + " " + rest;
    }
  }

  lemma WordParts(word: string, rest: string)
    requires ' ' !in word
    ensures Before(word) == word && After(word) == ""
    ensures Before(word + " " + rest) == word && After(word + " " + rest) == rest
  {
    SpaceAfter(word, rest);
  }

  lemma NothingWritten()
    ensures Before("") == "" && After("") == ""
  {
  }

  lemma Parenthesised(a: string, b: string)
    ensures "(" + a + ")" == "(" + b + ")" <==> a == b
  {
    if "(" + a + ")" == "(" + b + ")" {
      var x, y := "(" + a + ")", "(" + b + ")";
      assert x[1..|x| - 1] == a && y[1..|y| - 1] == b;
    }
  }

  /** A text matches an entry exactly when it spells its name, and its version and its source where it writes them. */
  lemma FitsExactly(p: Spelling, k: Key)
    requires Proper(p)
    ensures Fits(Text(p), k) <==> Names(p, k)
  {
    hide Before, After;
    NothingWritten();
    match p
    case Bare(name) => WordParts(name, "");
    case Versioned(name, version) =>
      WordParts(name, version);
      WordParts(version, "");
    case Sourced(name, version, source) =>
      WordParts(name, version + " " + ("(" + source + ")"));
      WordParts(version, "(" + source + ")");
      Parenthesised(k.source, source);
  }

  /** Every dependency text of the lockfile is spelled in one of the three ways. */
  ghost predicate Spelled(entries: Entries) {
    forall k, text :: k in entries && text in entries[k].dependencies ==> exists p :: Proper(p) && Text(p) == text
  }

  /** `k` lists a spelling of `t`. */
  ghost predicate Lists(entries: Entries, k: Key, t: Key)
    requires k in entries
  {
    exists p :: Proper(p) && Text(p) in entries[k].dependencies && Names(p, t)
  }

  /** The edges of an entry are exactly the entries that its dependency texts spell. */
  lemma EdgesExactly(entries: Entries, g: Graph, k: Key, t: Key)
    requires IsGraph(entries, g) && Spelled(entries) && k in entries && t in entries
    ensures t in g[k] <==> Lists(entries, k, t)
  {
    hide Fits, Text, Names;
    if t in g[k] {
      var text :| text in entries[k].dependencies && Fits(text, t);
      var p :| Proper(p) && Text(p) == text;
      FitsExactly(p, t);
    }
    if p :| Proper(p) && Text(p) in entries[k].dependencies && Names(p, t) {
      FitsExactly(p, t);
      assert Fits(Text(p), t);
    }
  }

  /** The entries that a spelling names. */
  function Named(keys: set<Key>, p: Spelling): set<Key> {
    set k | k in keys && Names(p, k)
  }

  /** Every spelling that the lockfile uses names one entry. */
  ghost predicate Unambiguous(entries: Entries) {
    forall k, p :: k in entries && Proper(p) && Text(p) in entries[k].dependencies ==> |Named(entries.Keys, p)| == 1
  }

  /** A lockfile has a graph exactly when no dependency text spells no entry or several. */
  lemma ResolvableExactly(entries: Entries)
    requires Spelled(entries)
    ensures Resolvable(entries) <==> Unambiguous(entries)
  {
    hide Fits, Text, Names;
    forall p | Proper(p) ensures Matches(entries.Keys, Text(p)) == Named(entries.Keys, p) {
      forall k ensures Fits(Text(p), k) <==> Names(p, k) {
        FitsExactly(p, k);
      }
    }
    if Unambiguous(entries) {
      forall k, text | k in entries && text in entries[k].dependencies ensures |Matches(entries.Keys, text)| == 1 {
        var p :| Proper(p) && Text(p) == text;
        assert |Named(entries.Keys, p)| == 1;
      }
    }
  }
}
