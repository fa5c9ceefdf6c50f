/**
 * The URLs the WebDAV transport derives from a delivery path: the target path,
 * whose last segment alone is URL-encoded (with "%20" for a space), and the
 * folder URLs walked from parent to child before an upload.
 */
module WebDavPaths {
  import opened Wrappers
  import opened JavaStrings
  import opened Encodings

  /** URLEncoder.encode(name, "UTF-8") with every "+" rewritten to "%20". */
  function EncodeSegment(name: string): string {
    ReplaceAll(UrlEncode(name), "+", "%20")
  }

  /** The path the transport uploads to: the directory part verbatim, "/", the encoded last segment. */
  function TargetPath(path: string): (r: string)
    ensures var dir := SubstringBeforeLast(path, '/');
      |dir| < |r| && r[..|dir|] == dir && r[|dir|] == '/' && '/' !in r[|dir| + 1..]
  {
    var dir := SubstringBeforeLast(path, '/');
    var name := EncodeSegment(SubstringAfterLast(path, '/'));
    EncodeSegmentChars(SubstringAfterLast(path, '/'));
    assert (dir + "/" + name)[|dir| + 1..] == name;
    dir + "/" + name
  }

  /** Every character URLEncoder writes is kept as it is, a "+" for a space, or part of a "%XY" escape. */
  lemma {:induction false} UrlEncodeChars(s: string)
    ensures forall x :: x in UrlEncode(s) ==> KeptByUrlEncoder(x) || x == '+' || x == '%' || IsHexDigit(x)
    decreases |s|
  {
    if s != [] {
      UrlEncodeChars(s[1..]);
    }
  }

  /** An encoded segment has no "/", no "+" and no space. */
  lemma EncodeSegmentChars(name: string)
    ensures '/' !in EncodeSegment(name) && '+' !in EncodeSegment(name) && ' ' !in EncodeSegment(name)
  {
    UrlEncodeChars(name);
    ReplaceCharChars(UrlEncode(name), '+', "%20");
  }

  /** One encoded character decodes to its UTF-8 bytes, whatever follows it. */
  lemma EncodeCharDecodes(c: char, rest: string)
    ensures PercentDecode(ReplaceAll(UrlEncodeChar(c), "+", "%20") + rest) == PrependBytes(Utf8Char(c), PercentDecode(rest))
  {
    if KeptByUrlEncoder(c) {
      ReplaceAbsentChar([c], '+', "%20");
      assert ([c] + rest)[1..] == rest;
    } else if c == ' ' {
      assert ReplaceAll("+", "+", "%20") == "%20";
      HexDigitValue(2);
      HexDigitValue(0);
      assert PercentEncodeBytes([32]) == "%20";
      PercentDecodeEncodedBytes([32], rest);
    } else {
      var escaped := PercentEncodeBytes(Utf8Char(c));
      assert '+' !in escaped by {
        forall i | 0 <= i < |escaped| ensures escaped[i] != '+' {
        }
      }
      ReplaceAbsentChar(escaped, '+', "%20");
      PercentDecodeEncodedBytes(Utf8Char(c), rest);
    }
  }

  /** Percent-decoding an encoded segment gives back the UTF-8 bytes of the name. */
  lemma {:induction false} EncodeSegmentDecodes(name: string)
    ensures PercentDecode(EncodeSegment(name)) == Some(Utf8(name))
    decreases |name|
  {
    if name != [] {
      var head := UrlEncodeChar(name[0]);
      assert UrlEncode(name) == head + UrlEncode(name[1..]);
      ReplaceCharAppend(head, UrlEncode(name[1..]), '+', "%20");
      EncodeCharDecodes(name[0], EncodeSegment(name[1..]));
      EncodeSegmentDecodes(name[1..]);
    }
  }

  /** Only the segment after the last "/" is encoded; the directory part is kept verbatim. */
  lemma TargetPathOfFile(dir: string, name: string)
    requires '/' !in name
    ensures TargetPath(dir + "/" + name) == dir + "/" + EncodeSegment(name)
  {
    var path := dir + "/" + name;
    SubstringBeforeLastOfJoin(dir, '/', name);
    SubstringsAroundLast(path, '/');
    assert path[|dir|] == '/';
    assert |SubstringAfterLast(path, '/')| == |name|;
    assert SubstringAfterLast(path, '/') == path[|dir| + 1..] == name;
  }

  /** A path without "/" is kept whole as the directory part and gets an empty last segment. */
  lemma TargetPathWithoutSlash(path: string)
    requires '/' !in path
    ensures TargetPath(path) == path + "/"
  {
    SubstringsAroundLast(path, '/');
  }

  /** The target path splits back into the directory and a segment that decodes to the name's bytes. */
  lemma TargetPathDecodes(dir: string, name: string)
    requires '/' !in name
    ensures SubstringBeforeLast(TargetPath(dir + "/" + name), '/') == dir
    ensures PercentDecode(SubstringAfterLast(TargetPath(dir + "/" + name), '/')) == Some(Utf8(name))
  {
    TargetPathOfFile(dir, name);
    EncodeSegmentChars(name);
    var target := dir + "/" + EncodeSegment(name);
    SubstringBeforeLastOfJoin(dir, '/', EncodeSegment(name));
    SubstringsAroundLast(target, '/');
    assert target[|dir|] == '/';
    assert SubstringAfterLast(target, '/') == target[|dir| + 1..] == EncodeSegment(name);
    EncodeSegmentDecodes(name);
  }

  /** The folders walked for a path: the non-empty "/"-separated segments of its directory part. */
  function FoldersOf(path: string): (folders: seq<string>)
    ensures forall k :: 0 <= k < |folders| ==> folders[k] != [] && '/' !in folders[k]
  {
    Split(SubstringBeforeLast(path, '/'), '/')
  }

  /** The folder URLs, parent to child: each one is the previous one with "/" appended if missing, plus the folder. */
  function FolderUrls(base: string, folders: seq<string>): (urls: seq<string>)
    ensures |urls| == |folders|
    decreases |folders|
  {
    if folders == [] then []
    else
      var url := AppendIfMissing(base, '/') + folders[0];
      [url] + FolderUrls(url, folders[1..])
  }

  /** Each folder URL is its parent's URL, "/", and the folder; the first hangs below the base. */
  lemma {:induction false} FolderUrlsNest(base: string, folders: seq<string>)
    requires forall k :: 0 <= k < |folders| ==> folders[k] != []
    ensures var urls := FolderUrls(base, folders);
      |folders| > 0 ==> urls[0] == AppendIfMissing(base, '/') + folders[0]
    ensures var urls := FolderUrls(base, folders);
      forall k :: 0 < k < |folders| && '/' !in folders[k - 1] ==> urls[k] == urls[k - 1] + "/" + folders[k]
    decreases |folders|
  {
    if folders != [] {
      var url := AppendIfMissing(base, '/') + folders[0];
      var rest := FolderUrls(url, folders[1..]);
      FolderUrlsNest(url, folders[1..]);
      forall k | 0 < k < |folders| && '/' !in folders[k - 1]
        ensures FolderUrls(base, folders)[k] == FolderUrls(base, folders)[k - 1] + "/" + folders[k]
      {
        assert folders[1..][k - 1] == folders[k];
        if k == 1 {
          assert folders[0][|folders[0]| - 1] in folders[0];
          assert AppendIfMissing(url, '/') == url + "/";
        } else {
          assert folders[1..][k - 2] == folders[k - 1];
        }
      }
    }
  }

  /** A path "/f1/.../fn/leaf" walks exactly the folders f1 ... fn. */
  lemma FoldersOfPath(folders: seq<string>, leaf: string)
    requires forall k :: 0 <= k < |folders| ==> folders[k] != [] && '/' !in folders[k]
    requires '/' !in leaf
    ensures FoldersOf("/" + Join(folders, '/') + "/" + leaf) == folders
  {
    var dir := "/" + Join(folders, '/');
    SubstringBeforeLastOfJoin(dir, '/', leaf);
    assert dir == ['/'] + Join(folders, '/');
    SplitLeadingSeparator(Join(folders, '/'), '/');
    SplitJoin(folders, '/');
  }

  /** Encoding the last segment does not change the folders walked. */
  lemma FoldersOfTargetPath(path: string)
    ensures FoldersOf(TargetPath(path)) == FoldersOf(path)
  {
    EncodeSegmentChars(SubstringAfterLast(path, '/'));
    SubstringBeforeLastOfJoin(SubstringBeforeLast(path, '/'), '/', EncodeSegment(SubstringAfterLast(path, '/')));
  }

  /** A path without "/" is walked as a folder of its own name, and the upload goes below it. */
  lemma PathWithoutSlashIsWalkedAsFolder(path: string)
    requires path != [] && '/' !in path
    ensures FoldersOf(TargetPath(path)) == [path]
    ensures TargetPath(path) == path + "/"
  {
    TargetPathWithoutSlash(path);
    FoldersOfTargetPath(path);
    SubstringsAroundLast(path, '/');
    SplitJoin([path], '/');
  }
}
