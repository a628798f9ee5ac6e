/**
 * The address parser of JFormDB (`tes_form_db::subpath_extractor`).
 *
 * An address is `.` STORAGE DELIMITER REST, where STORAGE is a run of
 * characters other than `.` and `[`, DELIMITER is `.` or `[`, and REST is
 * non-empty. The parser yields the storage name, copied into a fixed
 * buffer of 255 characters (so at most 254 of them survive), and a pointer
 * into the address where the remainder begins: just after the delimiter in
 * key mode, at the delimiter in path mode.
 */
module Subpath {
  import opened Wrappers

  /** Size of the storage-name buffer, terminator included (`bytesCount`). */
  const BytesCount: nat := 0xff

  /** The characters that end the storage segment. */
  const Delimiters: set<char> := {'.', '['}

  /** `path_type`: how much of the delimiter the remainder keeps. */
  datatype PathType = IsKey | IsPath

  function MinNat(a: nat, b: nat): (m: nat)
  {
    if a <= b then a else b
  }

  /** `strlen`: the number of characters before the first NUL. */
  function CLength(s: seq<char>): (n: nat)
    ensures n <= |s|
    ensures forall i :: 0 <= i < n ==> s[i] != '\0'
    ensures n < |s| ==> s[n] == '\0'
  {
    if s == [] || s[0] == '\0' then 0 else 1 + CLength(s[1..])
  }

  /** The characters of a NUL-terminated string (its contents up to the terminator). */
  function CStr(s: seq<char>): (c: seq<char>)
  {
    s[..CLength(s)]
  }

  /** The first NUL of a buffer decides its length, whatever follows it. */
  lemma CLengthAt(s: seq<char>, n: nat)
    requires n < |s| && s[n] == '\0'
    requires forall i :: 0 <= i < n ==> s[i] != '\0'
    ensures CLength(s) == n
  {
  }

  /** Index of the first character of `r` that lies in `delims`, if any. */
  function FindFirst(r: seq<char>, delims: set<char>): (k: Option<nat>)
    ensures k.Some? ==> k.value < |r| && r[k.value] in delims
    ensures forall i :: 0 <= i < |r| && (k.None? || i < k.value) ==> r[i] !in delims
  {
    if r == [] then None
    else if r[0] in delims then Some(0)
    else match FindFirst(r[1..], delims)
      case None => None
      case Some(k) => Some(k + 1)
  }

  /** The two halves of a range split at one delimiter, which neither half holds. */
  datatype Halves = Halves(first: seq<char>, second: seq<char>)

  /**
   * `boost::half_split` / `half_split_if`: split at the first character in
   * `delims`; the delimiter belongs to neither half; no occurrence, no split.
   */
  function HalfSplit(r: seq<char>, delims: set<char>): (h: Option<Halves>)
    ensures h.Some? ==>
      var k := |h.value.first|;
      && k < |r| && r[k] in delims
      && r == h.value.first + [r[k]] + h.value.second
      && forall i :: 0 <= i < k ==> r[i] !in delims
    ensures h.None? ==> forall i :: 0 <= i < |r| ==> r[i] !in delims
  {
    match FindFirst(r, delims)
    case None => None
    case Some(k) =>
      assert r == r[..k] + [r[k]] + r[k + 1..];
      Some(Halves(r[..k], r[k + 1..]))
  }

  /**
   * A successful parse: the storage segment between the leading `.` and the
   * delimiter, the offset of the remainder inside the address, and the
   * remainder itself (the characters from that offset to the terminator).
   */
  datatype Extracted = Extracted(segment: string, restAt: nat, rest: string) {
    /** The segment as it fits in the buffer: at most `BytesCount - 1` characters. */
    function StorageName(): (name: string)
    {
      segment[..MinNat(BytesCount - 1, |segment|)]
    }
  }

  /** The two range splits of the constructor, applied to the characters of the address. */
  function ExtractFrom(pathRange: seq<char>, kind: PathType): (e: Option<Extracted>)
  {
    match HalfSplit(pathRange, {'.'})
    case None => None
    case Some(pair1) =>
      if pair1.first != [] || pair1.second == [] then None
      else match HalfSplit(pair1.second, Delimiters)
        case None => None
        case Some(pair2) =>
          if pair2.first == [] || pair2.second == [] then None
          else
            var secondAt := |pair1.first| + 1 + |pair2.first| + 1;
            var restAt := if kind == IsKey then secondAt else secondAt - 1;
            Some(Extracted(pair2.first, restAt, pathRange[restAt..]))
  }

  /** What the constructor of `subpath_extractor` computes; a null address fails. */
  function Extract(path: Option<seq<char>>, kind: PathType): (e: Option<Extracted>)
  {
    if path.None? then None else ExtractFrom(CStr(path.value), kind)
  }

  /** `rest()` of a parse: null unless it succeeded. */
  function RestOf(e: Option<Extracted>): (rest: Option<string>)
  {
    if e.Some? then Some(e.value.rest) else None
  }

  /** `storageName()` of a parse: null unless it succeeded. */
  function StorageNameOf(e: Option<Extracted>): (name: Option<string>)
  {
    if e.Some? then Some(e.value.StorageName()) else None
  }

  /** `s[j]` is the delimiter that ends the storage segment of address `s`. */
  ghost predicate StorageEndsAt(s: seq<char>, j: int)
  {
    && 1 < j < |s|
    && s[j] in Delimiters
    && forall i :: 1 <= i < j ==> s[i] !in Delimiters
  }

  /**
   * The address grammar, stated independently of the parser: a leading `.`,
   * a non-empty storage segment free of delimiters, a delimiter, and at
   * least one character after it.
   */
  ghost predicate IsAddress(s: seq<char>)
  {
    |s| > 0 && s[0] == '.' &&
    exists j :: StorageEndsAt(s, j) && j < |s| - 1
  }

  /** On a well-formed address whose storage delimiter is at `j`, the parse in full. */
  lemma ExtractAddress(s: seq<char>, kind: PathType, j: nat)
    requires |s| > 0 && s[0] == '.' && StorageEndsAt(s, j) && j < |s| - 1
    ensures var at := if kind == IsKey then j + 1 else j;
            ExtractFrom(s, kind) == Some(Extracted(s[1..j], at, s[at..]))
  {
    var pair1 := HalfSplit(s, {'.'});
    assert s[0] in {'.'};
    assert pair1.Some? && pair1.value.first == [];
    var rem := pair1.value.second;
    assert rem == s[1..];
    var pair2 := HalfSplit(rem, Delimiters);
    assert rem[j - 1] == s[j];
    assert forall i :: 0 <= i < j - 1 ==> rem[i] == s[i + 1];
    assert pair2.Some? && |pair2.value.first| == j - 1;
    assert pair2.value.first == s[1..j];
    assert pair2.value.second == s[j + 1..];
  }

  /** A successful parse always comes from a well-formed address, cut at its first delimiter. */
  lemma ExtractedIsAddress(s: seq<char>, kind: PathType)
    requires ExtractFrom(s, kind).Some?
    ensures var j := ExtractFrom(s, kind).value.restAt - (if kind == IsKey then 1 else 0);
            |s| > 0 && s[0] == '.' && StorageEndsAt(s, j) && j < |s| - 1
  {
    var pair1 := HalfSplit(s, {'.'}).value;
    var pair2 := HalfSplit(pair1.second, Delimiters).value;
    assert pair1.first == [];
    assert pair1.second == s[1..];
    var j := |pair2.first| + 1;
    assert s[j] == pair1.second[j - 1];
    forall i | 1 <= i < j
      ensures s[i] !in Delimiters
    {
      assert s[i] == pair1.second[i - 1];
    }
  }

  /** Parsing succeeds exactly on the addresses of the grammar, in either mode. */
  lemma ExtractSucceedsIff(path: Option<seq<char>>, kind: PathType)
    ensures Extract(path, kind).Some? <==> path.Some? && IsAddress(CStr(path.value))
  {
    if path.Some? {
      var s := CStr(path.value);
      if ExtractFrom(s, kind).Some? {
        ExtractedIsAddress(s, kind);
      }
      if IsAddress(s) {
        var j :| StorageEndsAt(s, j) && j < |s| - 1;
        ExtractAddress(s, kind, j);
      }
    }
  }

  /**
   * The failure cases the source rejects: null, empty, no leading `.`,
   * nothing after it, an empty storage segment, no delimiter after the
   * segment, nothing after that delimiter. Both accessors are then null.
   */
  lemma MalformedAddressFails(path: Option<seq<char>>, kind: PathType)
    requires path.None? ||
             var s := CStr(path.value);
             || s == []
             || s[0] != '.'
             || |s| == 1
             || s[1] in Delimiters
             || (forall i :: 1 <= i < |s| ==> s[i] !in Delimiters)
             || (s[|s| - 1] in Delimiters && forall i :: 1 <= i < |s| - 1 ==> s[i] !in Delimiters)
    ensures Extract(path, kind) == None
    ensures RestOf(Extract(path, kind)) == None && StorageNameOf(Extract(path, kind)) == None
  {
    if path.Some? && ExtractFrom(CStr(path.value), kind).Some? {
      ExtractedIsAddress(CStr(path.value), kind);
    }
  }

  /**
   * What a successful parse promises: a non-empty storage name of at most
   * 254 characters without `.` or `[`, equal to the first min(254, n)
   * characters of the storage segment; a non-empty remainder that is a
   * proper suffix of the address and begins right after (key mode) or at
   * (path mode) the delimiter ending the segment.
   */
  lemma ExtractedShape(path: Option<seq<char>>, kind: PathType)
    requires Extract(path, kind).Some?
    ensures var e := Extract(path, kind).value;
            var s := CStr(path.value);
            var j := if kind == IsKey then e.restAt - 1 else e.restAt;
            && 1 < j < |s| - 1
            && s[j] in Delimiters
            && e.segment == s[1..j]
            && e.StorageName() == s[1..j][..MinNat(BytesCount - 1, j - 1)]
            && 0 < |e.StorageName()| < BytesCount
            && (forall i :: 0 <= i < |e.StorageName()| ==> e.StorageName()[i] !in Delimiters)
            && 0 < e.restAt < |s|
            && e.rest == s[e.restAt..] && e.rest != []
            && (kind == IsPath ==> e.rest[0] in Delimiters)
  {
    var s := CStr(path.value);
    ExtractedIsAddress(s, kind);
    var j := if kind == IsKey then ExtractFrom(s, kind).value.restAt - 1 else ExtractFrom(s, kind).value.restAt;
    ExtractAddress(s, kind, j);
  }

  /**
   * The two modes agree on success and on the storage name; a path-mode
   * remainder is the delimiter followed by the key-mode remainder.
   */
  lemma PathRestIsDelimiterThenKeyRest(path: Option<seq<char>>)
    ensures Extract(path, IsKey).Some? <==> Extract(path, IsPath).Some?
    ensures Extract(path, IsKey).Some? ==>
            var k := Extract(path, IsKey).value;
            var q := Extract(path, IsPath).value;
            && k.StorageName() == q.StorageName()
            && q.restAt + 1 == k.restAt
            && q.rest[0] in Delimiters
            && q.rest == [q.rest[0]] + k.rest
  {
    if path.Some? {
      var s := CStr(path.value);
      var j: nat;
      if ExtractFrom(s, IsKey).Some? {
        ExtractedIsAddress(s, IsKey);
        j := ExtractFrom(s, IsKey).value.restAt - 1;
      } else if ExtractFrom(s, IsPath).Some? {
        ExtractedIsAddress(s, IsPath);
        j := ExtractFrom(s, IsPath).value.restAt;
      } else {
        return;
      }
      ExtractAddress(s, IsKey, j);
      ExtractAddress(s, IsPath, j);
      assert s[j..] == [s[j]] + s[j + 1..];
    }
  }

  /**
   * On a NUL-free address with its storage delimiter at `j`, the two
   * accessors: the storage segment cut to the buffer, and the text after
   * (key mode) or from (path mode) the delimiter.
   */
  lemma ExtractPlainAddress(s: seq<char>, j: nat, kind: PathType)
    requires 1 < j < |s| - 1 && s[0] == '.' && s[j] in Delimiters
    requires forall i :: 1 <= i < j ==> s[i] !in Delimiters
    requires forall i :: 0 <= i < |s| ==> s[i] != '\0'
    ensures var e := Extract(Some(s), kind);
            && StorageNameOf(e) == Some(s[1..j][..MinNat(BytesCount - 1, j - 1)])
            && RestOf(e) == Some(if kind == IsKey then s[j + 1..] else s[j..])
  {
    assert CStr(s) == s by { CLengthOfPlain(s); }
    ExtractAddress(s, kind, j);
  }

  /**
   * An address assembled from a storage name of at most 254 characters, a
   * delimiter and a tail parses back into that name and that tail (with the
   * delimiter in front of it in path mode).
   */
  lemma ExtractComposed(path: seq<char>, name: seq<char>, delim: char, tail: seq<char>, kind: PathType)
    requires path == ['.'] + name + [delim] + tail
    requires 0 < |name| < BytesCount && tail != [] && delim in Delimiters
    requires forall i :: 0 <= i < |name| ==> name[i] !in Delimiters && name[i] != '\0'
    requires forall i :: 0 <= i < |tail| ==> tail[i] != '\0'
    ensures StorageNameOf(Extract(Some(path), kind)) == Some(name)
    ensures RestOf(Extract(Some(path), kind)) == Some(if kind == IsKey then tail else [delim] + tail)
  {
    var j := |name| + 1;
    assert path[1..j] == name;
    assert path[j + 1..] == tail;
    assert path[j..] == [delim] + tail;
    forall i | 0 <= i < |path|
      ensures path[i] != '\0' && (1 <= i < j ==> path[i] !in Delimiters)
    {
      if 1 <= i < j {
        assert path[i] == name[i - 1];
      } else if j < i {
        assert path[i] == tail[i - j - 1];
      }
    }
    ExtractPlainAddress(path, j, kind);
    assert name[..MinNat(BytesCount - 1, |name|)] == name;
  }

  /** `".strg.key"` is `.` + `strg` + `.` + `key`. */
  lemma DotExamplePieces(path: seq<char>)
    requires path == ".strg.key"
    ensures path == ['.'] + "strg" + ['.'] + "key" && ['.'] + "key" == ".key"
  {
  }

  /** `".strg.key"`: storage `strg`, remainder `key` in key mode and `.key` in path mode. */
  lemma ExtractDotExample(path: seq<char>, kind: PathType)
    requires path == ".strg.key"
    ensures StorageNameOf(Extract(Some(path), kind)) == Some("strg")
    ensures RestOf(Extract(Some(path), kind)) == Some(if kind == IsKey then "key" else ".key")
  {
    DotExamplePieces(path);
    ExtractComposed(path, "strg", '.', "key", kind);
  }

  /** `".strg[0]"` is `.` + `strg` + `[` + `0]`. */
  lemma BracketExamplePieces(path: seq<char>)
    requires path == ".strg[0]"
    ensures path == ['.'] + "strg" + ['['] + "0]" && ['['] + "0]" == "[0]"
  {
  }

  /** `".strg[0]"`: the key-mode remainder drops the bracket, `0]`; path mode keeps it, `[0]`. */
  lemma ExtractBracketExample(path: seq<char>, kind: PathType)
    requires path == ".strg[0]"
    ensures StorageNameOf(Extract(Some(path), kind)) == Some("strg")
    ensures RestOf(Extract(Some(path), kind)) == Some(if kind == IsKey then "0]" else "[0]")
  {
    BracketExamplePieces(path);
    ExtractComposed(path, "strg", '[', "0]", kind);
  }

  /** `".strg[0].key.key2"` is `.` + `strg` + `[` + `0].key.key2`. */
  lemma NestedExamplePieces(path: seq<char>)
    requires path == ".strg[0].key.key2"
    ensures path == ['.'] + "strg" + ['['] + "0].key.key2" && ['['] + "0].key.key2" == "[0].key.key2"
  {
  }

  /** `".strg[0].key.key2"`: only the first delimiter ends the storage name. */
  lemma ExtractNestedExample(path: seq<char>, kind: PathType)
    requires path == ".strg[0].key.key2"
    ensures StorageNameOf(Extract(Some(path), kind)) == Some("strg")
    ensures RestOf(Extract(Some(path), kind)) ==
            Some(if kind == IsKey then "0].key.key2" else "[0].key.key2")
  {
    NestedExamplePieces(path);
    ExtractComposed(path, "strg", '[', "0].key.key2", kind);
  }

  /** The rejected examples of the source's unit test, in both modes. */
  lemma ExtractFailureExamples(kind: PathType)
    ensures Extract(Some("strg[0]"), kind) == None
    ensures Extract(Some("["), kind) == None
    ensures Extract(None, kind) == None
    ensures Extract(Some(""), kind) == None
    ensures Extract(Some("..."), kind) == None
  {
    CLengthOfPlain("strg[0]");
    CLengthOfPlain("[");
    CLengthOfPlain("");
    CLengthOfPlain("...");
    MalformedAddressFails(Some("strg[0]"), kind);
    MalformedAddressFails(Some("["), kind);
    MalformedAddressFails(Some(""), kind);
    MalformedAddressFails(Some("..."), kind);
  }

  /** No character of a C string is the terminator. */
  lemma CStrHasNoNul(p: seq<char>)
    ensures forall i :: 0 <= i < |CStr(p)| ==> CStr(p)[i] != '\0'
  {
  }

  /** The storage segment of a parse is a stretch of a C string, so it holds no NUL. */
  lemma SegmentHasNoNul(path: Option<seq<char>>, kind: PathType)
    requires Extract(path, kind).Some?
    ensures forall i :: 0 <= i < |Extract(path, kind).value.segment| ==> Extract(path, kind).value.segment[i] != '\0'
  {
    var s := CStr(path.value);
    ExtractedIsAddress(s, kind);
    var j := if kind == IsKey then ExtractFrom(s, kind).value.restAt - 1 else ExtractFrom(s, kind).value.restAt;
    ExtractAddress(s, kind, j);
    CStrHasNoNul(path.value);
  }

  /** The remainder of a parse is the address from `restAt` on. */
  lemma RestIsSuffix(path: Option<seq<char>>, kind: PathType)
    requires Extract(path, kind).Some?
    ensures var e := Extract(path, kind).value;
            e.restAt <= |CStr(path.value)| && e.rest == CStr(path.value)[e.restAt..]
  {
  }

  /** A string without NUL is its own C string. */
  lemma CLengthOfPlain(s: seq<char>)
    requires forall i :: 0 <= i < |s| ==> s[i] != '\0'
    ensures CLength(s) == |s| && CStr(s) == s
  {
  }

  /** `std::copy_n`: the first `n` characters of `src` into the front of `dst`. */
  method CopyN(src: seq<char>, n: nat, dst: array<char>)
    requires n <= |src| && n <= dst.Length
    modifies dst
    ensures dst[..n] == src[..n]
    ensures dst[n..] == old(dst[n..])
  {
    var i := 0;
    while i < n
      invariant 0 <= i <= n
      invariant dst[..i] == src[..i]
      invariant dst[n..] == old(dst[n..])
    {
      dst[i] := src[i];
      i := i + 1;
    }
  }

  /**
   * Copies at most `BytesCount - 1` characters of `segment` into the name
   * buffer and terminates them with NUL, so the buffer's C string is the
   * truncated name.
   */
  method StoreName(segment: seq<char>, buf: array<char>)
    requires buf.Length == BytesCount
    requires forall i :: 0 <= i < |segment| ==> segment[i] != '\0'
    modifies buf
    ensures CStr(buf[..]) == segment[..MinNat(BytesCount - 1, |segment|)]
  {
    var nameLen := MinNat(BytesCount - 1, |segment|);
    CopyN(segment, nameLen, buf);
    buf[nameLen] := '\0';
    assert forall i :: 0 <= i < nameLen ==> buf[i] == segment[i];
    CLengthAt(buf[..], nameLen);
    assert buf[..][..nameLen] == segment[..nameLen];
  }

  /**
   * `subpath_extractor`: parses an address once, at construction, keeping
   * a pointer (here an offset) into the caller's string and a copy of the
   * storage name in a fixed buffer of `BytesCount` characters.
   */
  class SubpathExtractor {
    /** The caller's string, into which `_rest` points. */
    const text: seq<char>
    /** `_rest`: offset of the remainder in `text`, null on failure. */
    var restAt: Option<nat>
    /** `_storageName[bytesCount]`. */
    const storageNameBuf: array<char>

    ghost predicate Valid()
      reads this
    {
      && storageNameBuf.Length == BytesCount
      && (restAt.Some? ==> restAt.value <= |CStr(text)|)
    }

    constructor (path: Option<seq<char>>, kind: PathType)
      ensures Valid() && fresh(storageNameBuf)
      ensures text == (if path.Some? then path.value else [])
      ensures Rest() == RestOf(Extract(path, kind))
      ensures StorageName() == StorageNameOf(Extract(path, kind))
      ensures restAt.Some? ==> restAt.value == Extract(path, kind).value.restAt
    {
      text := if path.Some? then path.value else [];
      storageNameBuf := new char[BytesCount];
      restAt := None;
      new;
      storageNameBuf[0] := '\0';
      var parsed := Extract(path, kind);
      if parsed.Some? {
        SegmentHasNoNul(path, kind);
        RestIsSuffix(path, kind);
        StoreName(parsed.value.segment, storageNameBuf);
        restAt := Some(parsed.value.restAt);
      }
    }

    /** `rest()`: the remainder, read from the caller's string. */
    function Rest(): (r: Option<string>)
      reads this
      requires Valid()
      ensures r.Some? <==> restAt.Some?
      ensures r.Some? ==> |r.value| <= |CStr(text)| && CStr(text)[|CStr(text)| - |r.value|..] == r.value
    {
      if restAt.Some? then Some(CStr(text)[restAt.value..]) else None
    }

    /** `storageName()`: the buffer's contents, and null unless the parse succeeded. */
    function StorageName(): (r: Option<string>)
      reads this, storageNameBuf
      requires Valid()
      ensures r.Some? <==> restAt.Some?
      ensures r.Some? ==> |r.value| <= BytesCount && forall i :: 0 <= i < |r.value| ==> r.value[i] != '\0'
    {
      if restAt.Some? then Some(CStr(storageNameBuf[..])) else None
    }
  }
}
