/** `getContentType` of main.ts: the MIME type of a path, chosen by the
    lower-cased text after its last `.` from a fixed table. */
module ContentType {
  import opened Strings

  /** The extension table. Every value is a non-empty string, so the
      source's `types[ext] || 'text/plain'` falls back exactly when the
      extension is not a key. */
  const Types: map<string, string> := map[
    "js" := "application/javascript",
    "css" := "text/css",
    "html" := "text/html",
    "json" := "application/json",
    "png" := "image/png",
    "jpg" := "image/jpeg",
    "jpeg" := "image/jpeg",
    "gif" := "image/gif"
  ]

  /** The type of anything the table does not know. */
  const DefaultType: string := "text/plain"

  /** Every type the resolver can answer with. */
  const KnownTypes: set<string> := {
    "application/javascript", "text/css", "text/html", "application/json",
    "image/png", "image/jpeg", "image/gif", "text/plain"
  }

  /** `path.split('.').pop()?.toLowerCase() || ''`: `pop` of a split never
      comes back empty-handed, so the `''` fallback only ever repeats an
      empty last piece. */
  function Extension(path: string): (r: string)
    ensures |r| <= |path|
    ensures IsFinalSegment(path, '.', path[|path| - |r|..])
    ensures r == ToLower(path[|path| - |r|..])
  {
    ToLower(LastSegment(path, '.'))
  }

  /** The content type of a path: total, and always one of the table's
      values or `text/plain`. */
  function GetContentType(path: string): (r: string)
    ensures r in KnownTypes
    ensures r in Types.Values || r == DefaultType
  {
    var ext := Extension(path);
    if ext in Types then Types[ext] else DefaultType
  }

  /** Every key is made of lower-case ASCII letters only. */
  lemma KeysAreLowerLetters(k: string)
    requires k in Types
    ensures forall i :: 0 <= i < |k| ==> 'a' <= k[i] <= 'z'
  {
    if k == "js" {
    } else if k == "css" {
    } else if k == "html" {
    } else if k == "json" {
    } else if k == "png" {
    } else if k == "jpg" {
    } else if k == "jpeg" {
    } else {
      assert k == "gif";
    }
  }

  /** No key holds a `.`, a `/` or an upper-case letter. */
  lemma KeysArePlain(k: string)
    requires k in Types
    ensures '.' !in k && '/' !in k
    ensures forall i :: 0 <= i < |k| ==> !IsUpper(k[i])
    ensures ToLower(k) == k
  {
    KeysAreLowerLetters(k);
    ToLowerFixed(k);
  }

  /** Only the last `.`-separated piece decides the type. */
  lemma LastSegmentDecides(prefix: string, seg: string)
    requires '.' !in seg
    ensures GetContentType(prefix + "." + seg) == GetContentType(seg)
  {
    LastSegmentAfter(prefix, '.', seg);
    LastSegmentWithout(seg, '.');
  }

  /** A path ending in `.k` for a table key `k` has the type the table gives. */
  lemma KeyGivesItsType(prefix: string, k: string)
    requires k in Types
    ensures GetContentType(prefix + "." + k) == Types[k]
  {
    KeysArePlain(k);
    LastSegmentAfter(prefix, '.', k);
  }

  /** A path that is nothing but a key, with no `.` before it, is looked up
      whole: the bare path `js` is JavaScript. */
  lemma BareKeyGivesItsType(k: string)
    requires k in Types
    ensures GetContentType(k) == Types[k]
  {
    KeysArePlain(k);
    LastSegmentWithout(k, '.');
  }

  /** `a.png.js` is JavaScript: the earlier `.png` plays no part. */
  lemma DoubleExtension()
    ensures GetContentType("a.png.js") == "application/javascript"
  {
    assert "a.png.js" == "a.png" + "." + "js";
    KeyGivesItsType("a.png", "js");
  }

  /** An extension that differs from a table key only in ASCII case gets
      that key's type. */
  lemma CaseIgnored(prefix: string, e: string, k: string)
    requires k in Types
    requires EqualIgnoringCase(e, k)
    ensures GetContentType(prefix + "." + e) == Types[k]
  {
    KeysArePlain(k);
    LastSegmentAfter(prefix, '.', e);
    ToLowerEqualIff(e, k);
  }

  /** Two paths whose last pieces differ only in ASCII case get the same
      type. */
  lemma CaseInsensitive(p: string, q: string)
    requires EqualIgnoringCase(LastSegment(p, '.'), LastSegment(q, '.'))
    ensures GetContentType(p) == GetContentType(q)
  {
    ToLowerEqualIff(LastSegment(p, '.'), LastSegment(q, '.'));
  }

  /** An extension that is not a key, lower-cased, falls back to `text/plain`. */
  lemma UnknownIsPlain(prefix: string, seg: string)
    requires '.' !in seg
    requires ToLower(seg) !in Types
    ensures GetContentType(prefix + "." + seg) == DefaultType
  {
    LastSegmentAfter(prefix, '.', seg);
  }

  /** A path ending in `.` has an empty extension, hence `text/plain`. */
  lemma TrailingDotIsPlain(prefix: string)
    ensures GetContentType(prefix + ".") == DefaultType
  {
    assert prefix + "." == prefix + "." + "";
    UnknownIsPlain(prefix, "");
  }

  /** A URL path (it starts with `/`) without any `.` gets `text/plain`: its
      whole text is the extension, and no key holds a `/`. */
  lemma NoDotIsPlain(path: string)
    requires |path| > 0 && path[0] == '/'
    requires '.' !in path
    ensures GetContentType(path) == DefaultType
  {
    LastSegmentWithout(path, '.');
    var ext := ToLower(path);
    assert ext[0] == '/';
    if ext in Types {
      KeysArePlain(ext);
      assert false;
    }
  }
}
