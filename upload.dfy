/** The image-upload validators: the stored file name, the extension check against the configured
    allow list, and the size check against the configured maximum. */
module Upload {
  import opened Common

  /** path.Ext: the suffix from the final '.' of the last path element; empty when that element
      has no '.'. */
  function Ext(name: string): (e: string)
    ensures |e| <= |name| && e == name[|name| - |e|..]
    ensures e != [] ==> e[0] == '.'
    ensures forall k :: 0 < k < |e| ==> e[k] != '.' && e[k] != '/'
    ensures e == [] ==> forall k :: 0 <= k < |name| && name[k] == '.' ==> '/' in name[k..]
  {
    if |name| == 0 then ""
    else
      var c := name[|name| - 1];
      if c == '/' then ""
      else if c == '.' then "."
      else
        var e := Ext(name[..|name| - 1]);
        if e == "" then "" else e + [c]
  }

  /** An extension as path.Ext returns it: a '.' followed by no '.' or '/'. */
  predicate IsExt(e: string)
  {
    |e| > 0 && e[0] == '.' && forall k :: 0 < k < |e| ==> e[k] != '.' && e[k] != '/'
  }

  /** Whatever precedes it, a proper extension is the extension of the whole name. */
  lemma {:induction false} ExtOfSuffix(stem: string, e: string)
    requires IsExt(e)
    ensures Ext(stem + e) == e
  {
    var name := stem + e;
    if |e| > 1 {
      var front := e[..|e| - 1];
      assert name[..|name| - 1] == stem + front;
      ExtOfSuffix(stem, front);
    }
  }

  /** A name without '.' has no extension. */
  lemma {:induction false} ExtWithoutDot(s: string)
    requires '.' !in s
    ensures Ext(s) == ""
  {
    if |s| > 0 && s[|s| - 1] != '/' {
      assert '.' !in s[..|s| - 1];
      ExtWithoutDot(s[..|s| - 1]);
    }
  }

  /** strings.TrimSuffix: `s` without `suffix` when it ends with it, else `s`. */
  function TrimSuffix(s: string, suffix: string): (r: string)
    ensures |suffix| <= |s| && s[|s| - |suffix|..] == suffix ==> r + suffix == s
    ensures !(|suffix| <= |s| && s[|s| - |suffix|..] == suffix) ==> r == s
  {
    if |suffix| <= |s| && s[|s| - |suffix|..] == suffix then s[..|s| - |suffix|] else s
  }

  /** GetImageName: the digest of the name without its extension, then the extension. The digest
      (util.EncodeMD5) is a parameter. */
  function GetImageName(name: string, md5: string -> string): (r: string)
    ensures exists stem :: stem + Ext(name) == name && r == md5(stem) + Ext(name)
  {
    var ext := Ext(name);
    var stem := TrimSuffix(name, ext);
    md5(stem) + ext
  }

  /** The stored name keeps the uploaded file's extension: exactly, when the digest is written
      without '.' (as a hexadecimal digest is). */
  lemma ImageNameKeepsExt(name: string, md5: string -> string)
    requires forall s :: '.' !in md5(s)
    ensures Ext(GetImageName(name, md5)) == Ext(name)
  {
    var ext := Ext(name);
    var digest := md5(TrimSuffix(name, ext));
    if ext == "" {
      assert GetImageName(name, md5) == digest;
      ExtWithoutDot(digest);
    } else {
      ExtOfSuffix(digest, ext);
    }
  }

  /** Two names that differ only before their common extension get the same stored name when
      their stems have the same digest. */
  lemma ImageNameDependsOnStem(stem1: string, stem2: string, e: string, md5: string -> string)
    requires IsExt(e) && md5(stem1) == md5(stem2)
    ensures GetImageName(stem1 + e, md5) == GetImageName(stem2 + e, md5)
  {
    ExtOfSuffix(stem1, e);
    ExtOfSuffix(stem2, e);
    assert TrimSuffix(stem1 + e, e) == stem1;
    assert TrimSuffix(stem2 + e, e) == stem2;
  }

  /** strings.ToUpper, on ASCII letters. */
  function UpperChar(c: char): (u: char)
    ensures 'a' <= c <= 'z' ==> u as int == c as int - 32
    ensures !('a' <= c <= 'z') ==> u == c
  {
    if 'a' <= c <= 'z' then (c as int - 32) as char else c
  }

  function Upper(s: string): (u: string)
    ensures |u| == |s|
    ensures forall k :: 0 <= k < |s| ==> u[k] == UpperChar(s[k])
  {
    seq(|s|, k requires 0 <= k < |s| => UpperChar(s[k]))
  }

  /** Some allowed extension equals the given one after upper-casing both. */
  predicate ExtAllowed(ext: string, allowExts: seq<string>)
  {
    exists i :: 0 <= i < |allowExts| && Upper(allowExts[i]) == Upper(ext)
  }

  /** CheckImageExt: scan the allow list and stop at the first entry that equals the file's
      extension up to case. */
  method CheckImageExt(fileName: string, allowExts: seq<string>) returns (ok: bool)
    ensures ok <==> ExtAllowed(Ext(fileName), allowExts)
    ensures allowExts == [] ==> !ok
  {
    var ext := Ext(fileName);
    for i := 0 to |allowExts|
      invariant forall j :: 0 <= j < i ==> Upper(allowExts[j]) != Upper(ext)
    {
      if Upper(allowExts[i]) == Upper(ext) {
        return true;
      }
    }
    return false;
  }

  lemma {:induction false} UpperIdempotent(s: string)
    ensures Upper(Upper(s)) == Upper(s)
  {
    forall k | 0 <= k < |s| ensures Upper(Upper(s))[k] == Upper(s)[k] {
      var c := s[k];
      if 'a' <= c <= 'z' {
        assert !('a' <= UpperChar(c) <= 'z');
      }
    }
  }

  /** The check ignores case: an extension and its upper-cased form are allowed alike. */
  lemma ExtAllowedIgnoresCase(ext: string, allowExts: seq<string>)
    ensures ExtAllowed(Upper(ext), allowExts) <==> ExtAllowed(ext, allowExts)
  {
    UpperIdempotent(ext);
  }

  /** CheckImageSize: false when the size could not be read, else whether it is within the
      maximum. */
  function CheckImageSize(size: Result<int>, maxSize: int): (ok: bool)
    ensures size.Err? ==> !ok
    ensures size.Ok? ==> (ok <==> size.value <= maxSize)
  {
    size.Ok? && size.value <= maxSize
  }
}
