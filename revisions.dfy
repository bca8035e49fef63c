/**
 * The revision-suffix rule of the asset pipeline. The regular expression
 * `-[a-f0-9]{8}\.(css|js)$` decides which built files already carry a
 * content digest: the `assets:revisions:clean` task deletes exactly those,
 * and the `assets:revisions` task hashes exactly the others, renaming each
 * `name.ext` to `name-<digest>.ext` and recording the renames in a manifest.
 */
module Revisions {
  import opened Seqs

  /** A character of the class `[a-f0-9]`: a digit or a LOWER-case hex letter. */
  predicate IsHexDigit(c: char)
  {
    '0' <= c <= '9' || 'a' <= c <= 'f'
  }

  /** Exactly eight characters of `[a-f0-9]`, as `[a-f0-9]{8}` matches them. */
  predicate IsDigest(d: string)
  {
    |d| == 8 && forall i :: 0 <= i < |d| ==> IsHexDigit(d[i])
  }

  /** An eight-character content digest as gulp-rev writes it into a file name. */
  type Digest = d: string | IsDigest(d) witness "00000000"

  /**
   * The pattern `-[a-f0-9]{8}\.(css|js)` matches `s` from index `start`
   * through to the end of `s`, where `$` requires the match to stop.
   */
  predicate SuffixMatchesAt(s: string, start: int)
    requires 0 <= start <= |s|
  {
    var t := s[start..];
    && (|t| == 13 || |t| == 12)
    && t[0] == '-'
    && IsDigest(t[1..9])
    && t[9] == '.'
    && (t[10..] == "css" || t[10..] == "js")
  }

  /**
   * `RegExp.prototype.test` of the unanchored pattern: the match may start
   * anywhere in the path, and `$` pins its end to the end of the path.
   */
  ghost predicate PatternFound(path: string)
  {
    exists start :: 0 <= start <= |path| && SuffixMatchesAt(path, start)
  }

  predicate EndsWith(s: string, suffix: string)
  {
    |suffix| <= |s| && s[|s| - |suffix|..] == suffix
  }

  // A path the glob `public/**/*.{css,js}` can list: it ends in `.css` or `.js`.
  predicate IsAsset(path: string)
  {
    EndsWith(path, ".css") || EndsWith(path, ".js")
  }

  /** The extension of an asset, dot included: what `path.extname` gives gulp-rev. */
  function Ext(path: string): string
  {
    if EndsWith(path, ".css") then ".css" else ".js"
  }

  /**
   * The path ends with `-`, eight characters of `[a-f0-9]`, `.`, and then
   * `css` or `js`. Here `k` is the index of that hyphen.
   */
  predicate IsRevisioned(path: string)
  {
    && IsAsset(path)
    && |path| >= |Ext(path)| + 9
    && var k := |path| - |Ext(path)| - 9;
       path[k] == '-' && IsDigest(path[k + 1..k + 9])
  }

  /** A revisioned path has the pattern's match starting at its hyphen. */
  lemma RevisionedHasMatch(path: string)
    requires IsRevisioned(path)
    ensures PatternFound(path)
  {
    var e := Ext(path);
    var k := |path| - |e| - 9;
    var t := path[k..];
    assert |t| == |e| + 9 && t[0] == '-';
    assert t[1..9] == path[k + 1..k + 9];
    assert t[9..] == path[|path| - |e|..] == e;
    assert t[9] == '.' && t[10..] == e[1..];
    if e == ".css" {
      assert t[10..] == "css";
    } else {
      assert t[10..] == "js";
    }
    assert SuffixMatchesAt(path, k);
  }

  /** Wherever the pattern's match starts, the path is revisioned. */
  lemma MatchIsRevisioned(path: string, start: int)
    requires 0 <= start <= |path| && SuffixMatchesAt(path, start)
    ensures IsRevisioned(path)
  {
    var t := path[start..];
    assert path[start + 9..] == t[9..];
    assert path[start + 1..start + 9] == t[1..9];
    if t[10..] == "css" {
      assert path[|path| - 4..] == t[9..] == ".css";
    } else {
      assert path[|path| - 3..] == t[9..] == ".js";
      assert !EndsWith(path, ".css");
    }
  }

  /** Checking the tail decides exactly what the regular expression's search decides. */
  lemma IsRevisionedIffPatternFound(path: string)
    ensures IsRevisioned(path) <==> PatternFound(path)
  {
    if IsRevisioned(path) {
      RevisionedHasMatch(path);
    }
    if PatternFound(path) {
      var start :| 0 <= start <= |path| && SuffixMatchesAt(path, start);
      MatchIsRevisioned(path, start);
    }
  }

  /** Paths the pattern accepts: a hyphen, eight lower-case hex characters and the extension. */
  lemma RevisionSuffixAcceptsCss()
    ensures IsRevisioned("style-0a1b2c3d.css")
  {
    var s := "style-0a1b2c3d.css";
    assert s[|s| - 4..] == ".css";
    assert s[5] == '-' && s[6..14] == "0a1b2c3d";
  }

  lemma RevisionSuffixAcceptsJs()
    ensures IsRevisioned("app-deadbeef.js")
  {
    var j := "app-deadbeef.js";
    assert j[|j| - 3..] == ".js" && j[|j| - 4..] != ".css";
    assert j[3] == '-' && j[4..12] == "deadbeef";
  }

  /** Paths the pattern rejects: upper-case hex, a short digest, a digest after a dot. */
  lemma RevisionSuffixRejects()
    ensures !IsRevisioned("style-0A1B2C3D.css")
    ensures !IsRevisioned("style-0a1b2c3.css")
    ensures !IsRevisioned("style.0a1b2c3d.css")
  {
    var u := "style-0A1B2C3D.css";
    assert u[|u| - 4..] == ".css" && u[6..14][1] == 'A';
    var v := "style-0a1b2c3.css";
    assert v[|v| - 4..] == ".css" && v[4] == 'e';
    var w := "style.0a1b2c3d.css";
    assert w[|w| - 4..] == ".css" && w[5] == '.';
  }

  predicate IsUnrevisioned(path: string)
  {
    !IsRevisioned(path)
  }

  /**
   * `assets:revisions:clean`: `ignore.include` of the pattern keeps exactly
   * the already-revisioned paths, which are then deleted.
   */
  function CleanSelection(files: seq<string>): (doomed: seq<string>)
    ensures forall f :: f in doomed <==> f in files && IsRevisioned(f)
  {
    Filter(IsRevisioned, files)
  }

  /**
   * `assets:revisions`: `ignore.exclude` of the pattern keeps exactly the
   * paths that are not revisioned yet, which are then hashed.
   */
  function RevisionSelection(files: seq<string>): (hashed: seq<string>)
    ensures forall f :: f in hashed <==> f in files && !IsRevisioned(f)
  {
    Filter(IsUnrevisioned, files)
  }

  /**
   * The clean pass and the revision pass split one listing of the output
   * tree: the two selections are disjoint, together hold every listed path
   * as often as it is listed, and each keeps the order of the listing.
   */
  lemma SelectionsPartition(files: seq<string>)
    ensures Interleaving(files, CleanSelection(files), RevisionSelection(files))
    ensures multiset(CleanSelection(files)) + multiset(RevisionSelection(files)) == multiset(files)
    ensures forall f :: f in CleanSelection(files) ==> f !in RevisionSelection(files)
  {
    FilterComplementInterleaves(IsRevisioned, IsUnrevisioned, files);
    InterleavingMultiset(files, CleanSelection(files), RevisionSelection(files));
  }

  /** The path without its extension. */
  function Stem(path: string): string
    requires IsAsset(path)
  {
    path[..|path| - |Ext(path)|]
  }

  /**
   * gulp-rev's rename of `name.ext` to `name-<digest>.ext`. The digest of
   * the file's content is computed by the library and is a parameter here.
   */
  function RevisionedName(path: string, digest: Digest): (name: string)
    requires IsAsset(path)
    ensures |name| == |path| + 9
    ensures IsRevisioned(name)
  {
    var e := Ext(path);
    var k := |Stem(path)|;
    var name := Stem(path) + ("-" + digest + e);
    assert name[k + 9..] == e;
    assert Ext(name) == e by {
      if e == ".js" {
        assert name[|name| - 4] == digest[7];
      }
    }
    assert name[k] == '-';
    assert name[k + 1..k + 9] == digest;
    name
  }

  /** The digest a revisioned name carries. */
  function DigestOf(name: string): Digest
    requires IsRevisioned(name)
  {
    var k := |name| - |Ext(name)| - 9;
    name[k + 1..k + 9]
  }

  /** The name with its `-<digest>` taken out again. */
  function OriginalName(name: string): string
    requires IsRevisioned(name)
  {
    var k := |name| - |Ext(name)| - 9;
    name[..k] + Ext(name)
  }

  /** Taking the digest out of a revisioned name gives back the original path and the digest. */
  lemma RenameRoundTrip(path: string, digest: Digest)
    requires IsAsset(path)
    ensures OriginalName(RevisionedName(path, digest)) == path
    ensures DigestOf(RevisionedName(path, digest)) == digest
  {
    var e := Ext(path);
    var stem := Stem(path);
    var name := RevisionedName(path, digest);
    assert name == stem + ("-" + digest + e);
    assert name[|stem| + 9..] == e;
    assert Ext(name) == e;
    assert name[..|stem|] == stem;
    assert name[|stem| + 1..|stem| + 9] == digest;
    assert path == stem + e;
  }

  /** Every revisioned name is the rename of its original path by its own digest. */
  lemma RevisionedNameOfOriginal(name: string)
    requires IsRevisioned(name)
    ensures IsAsset(OriginalName(name))
    ensures RevisionedName(OriginalName(name), DigestOf(name)) == name
  {
    var e := Ext(name);
    var k := |name| - |e| - 9;
    var path := OriginalName(name);
    assert path == name[..k] + e;
    assert path[k..] == e;
    assert Ext(path) == e by {
      if e == ".js" {
        assert path[|path| - 3] == '.';
      }
    }
    assert Stem(path) == name[..k];
    assert name == name[..k] + ("-" + DigestOf(name) + e) by {
      assert name[k..] == "-" + DigestOf(name) + e by {
        assert name[k..][0] == '-';
        assert name[k..][1..9] == DigestOf(name);
        assert name[k..][9..] == e;
      }
    }
  }

  /** The renamed outputs of the revision pass, in the order of its selection. */
  function RevisionedNames(originals: seq<string>, digestOf: string -> Digest): (names: seq<string>)
    requires forall p :: p in originals ==> IsAsset(p)
    ensures |names| == |originals|
    ensures forall i :: 0 <= i < |names| ==> IsRevisioned(names[i]) && OriginalName(names[i]) == originals[i]
  {
    var names := seq(|originals|, i requires 0 <= i < |originals| => RevisionedName(originals[i], digestOf(originals[i])));
    assert forall i | 0 <= i < |names| :: OriginalName(names[i]) == originals[i] by {
      forall i | 0 <= i < |names| {
        RenameRoundTrip(originals[i], digestOf(originals[i]));
      }
    }
    names
  }

  /** The `i`-th output is the `i`-th selected file renamed by its own digest. */
  lemma RevisionedNameAt(originals: seq<string>, digestOf: string -> Digest, i: int)
    requires forall p :: p in originals ==> IsAsset(p)
    requires 0 <= i < |originals|
    ensures RevisionedNames(originals, digestOf)[i] == RevisionedName(originals[i], digestOf(originals[i]))
  {
  }

  /**
   * `rev.manifest()`: every hashed path mapped to its revisioned name. It
   * is written whole each time, so it holds no other entry.
   */
  function Manifest(originals: seq<string>, digestOf: string -> Digest): (manifest: map<string, string>)
    requires forall p :: p in originals ==> IsAsset(p)
    ensures manifest.Keys == set p | p in originals
    ensures forall p :: p in manifest ==> IsRevisioned(manifest[p]) && OriginalName(manifest[p]) == p
  {
    var manifest := map p | p in originals :: RevisionedName(p, digestOf(p));
    assert forall p | p in originals :: OriginalName(manifest[p]) == p by {
      forall p | p in originals {
        RenameRoundTrip(p, digestOf(p));
      }
    }
    manifest
  }

  /**
   * The manifest records the renames the revision pass actually wrote: each
   * hashed file maps to its output, whose digest is the file's own.
   */
  lemma ManifestRecordsOutputs(originals: seq<string>, digestOf: string -> Digest)
    requires forall p :: p in originals ==> IsAsset(p)
    ensures forall i :: 0 <= i < |originals| ==>
      && originals[i] in Manifest(originals, digestOf)
      && Manifest(originals, digestOf)[originals[i]] == RevisionedNames(originals, digestOf)[i]
      && DigestOf(Manifest(originals, digestOf)[originals[i]]) == digestOf(originals[i])
  {
    var manifest := Manifest(originals, digestOf);
    var names := RevisionedNames(originals, digestOf);
    forall i | 0 <= i < |originals|
      ensures originals[i] in manifest && manifest[originals[i]] == names[i]
      ensures DigestOf(manifest[originals[i]]) == digestOf(originals[i])
    {
      var p := originals[i];
      assert p in manifest.Keys;
      assert manifest[p] == RevisionedName(p, digestOf(p));
      RevisionedNameAt(originals, digestOf, i);
      RenameRoundTrip(p, digestOf(p));
    }
  }

  /**
   * A second build: the output tree now holds the files the first revision
   * pass hashed and their renamed copies, listed in whatever order the
   * directory walk yields them. Its clean pass deletes exactly the copies,
   * and its revision pass hashes exactly the same files again, each in the
   * order of the first pass, so revisioned duplicates never pile up.
   */
  lemma SecondBuildSelections(files: seq<string>, digestOf: string -> Digest, listing: seq<string>)
    requires forall p :: p in files ==> IsAsset(p)
    requires Interleaving(listing, RevisionSelection(files), RevisionedNames(RevisionSelection(files), digestOf))
    ensures CleanSelection(listing) == RevisionedNames(RevisionSelection(files), digestOf)
    ensures RevisionSelection(listing) == RevisionSelection(files)
  {
    var originals := RevisionSelection(files);
    var outputs := RevisionedNames(originals, digestOf);
    assert forall i :: 0 <= i < |originals| ==> IsUnrevisioned(originals[i]);
    assert forall i :: 0 <= i < |outputs| ==> !IsUnrevisioned(outputs[i]);
    FilterSeparatesInterleaving(IsUnrevisioned, IsRevisioned, listing, originals, outputs);
  }
}
