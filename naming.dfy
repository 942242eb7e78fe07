/**
 * Object-key naming: `os.path.splitext` and the variant-key derivation of
 * `file_name_ext` (ImageProcessorFunc/lambda_function.py:62-65).
 */
module Naming {
  import opened Strings

  /**
   * `i` is where `os.path.splitext` cuts `p`: a dot with no dot or slash after
   * it, preceded within the last path component by a character that is not a dot
   * (so a leading run of dots, as in ".bashrc", is not an extension).
   */
  ghost predicate ExtensionAt(p: string, i: int) {
    && 0 <= i < |p|
    && p[i] == '.'
    && (forall k :: i < k < |p| ==> p[k] != '.' && p[k] != '/')
    && (exists j :: 0 <= j < i && p[j] != '.' && p[j] != '/' && forall k :: j < k < i ==> p[k] != '/')
  }

  /** `os.path.splitext(p)` for POSIX paths: `(root, ext)` with `ext` empty or starting at the last dot. */
  function SplitExt(p: string): (parts: (string, string))
    ensures parts.0 + parts.1 == p
    ensures parts.1 == [] || parts.1[0] == '.'
  {
    var sepIndex := RFind(p, '/');
    var dotIndex := RFind(p, '.');
    if dotIndex > sepIndex && exists k :: sepIndex < k < dotIndex && p[k] != '.' then
      (p[..dotIndex], p[dotIndex..])
    else
      (p, [])
  }

  /** `splitext` finds an extension exactly when the path has a place to cut it, and cuts there. */
  lemma SplitExtCharacterised(p: string)
    ensures SplitExt(p).1 != [] <==> exists i :: ExtensionAt(p, i)
    ensures SplitExt(p).1 != [] ==> ExtensionAt(p, |SplitExt(p).0|)
    ensures forall i :: ExtensionAt(p, i) ==> SplitExt(p) == (p[..i], p[i..])
  {
    forall i | ExtensionAt(p, i)
      ensures SplitExt(p) == (p[..i], p[i..])
    {
      var sepIndex := RFind(p, '/');
      var dotIndex := RFind(p, '.');
      assert dotIndex >= i;
      assert dotIndex == i;
      var j :| 0 <= j < i && p[j] != '.' && p[j] != '/' && forall k :: j < k < i ==> p[k] != '/';
      assert sepIndex < j;
    }
    if SplitExt(p).1 != [] {
      var sepIndex := RFind(p, '/');
      var dotIndex := RFind(p, '.');
      var k :| sepIndex < k < dotIndex && p[k] != '.';
      assert p[k] != '/';
      assert |SplitExt(p).0| == dotIndex;
      assert ExtensionAt(p, dotIndex);
    }
  }

  /**
   * The key the `size` variant of `filename` is cached under: `-<size>`
   * inserted before the extension, or the name itself when `size` is not
   * positive (the first result of `file_name_ext`).
   */
  function VariantKey(filename: string, size: int): (key: string)
    ensures size <= 0 ==> key == filename
    ensures size > 0 ==> |key| > |filename|
  {
    if size > 0 then
      var (root, extension) := SplitExt(filename);
      root + "-" + Decimal(size) + extension
    else filename
  }

  /**
   * The extension without its dot, upper-cased (the second result of
   * `file_name_ext`): as long as the extension less its dot, empty when there
   * is no extension, with no dot and no lower-case ASCII letter in it.
   */
  function ExtensionName(filename: string): (name: string)
    ensures var ext := SplitExt(filename).1;
      |name| == (if ext == [] then 0 else |ext| - 1)
    ensures '.' !in name
    ensures forall i :: 0 <= i < |name| ==> !IsLower(name[i])
    ensures var ext := SplitExt(filename).1;
      forall i :: 0 <= i < |name| ==> name[i] == UpperChar(ext[i + 1])
  {
    var extension := SplitExt(filename).1;
    ExtensionTailUpper(filename);
    Upper(if extension == [] then [] else extension[1..])
  }

  /** Upper-casing what follows the extension's dot leaves no dot. */
  lemma ExtensionTailUpper(filename: string)
    ensures var ext := SplitExt(filename).1;
      ext != [] ==> '.' !in Upper(ext[1..])
  {
    var ext := SplitExt(filename).1;
    if ext != [] {
      var bare := ext[1..];
      var name := Upper(bare);
      SplitExtCharacterised(filename);
      forall k | 0 <= k < |bare| ensures bare[k] != '.' {
        assert bare[k] == filename[|filename| - |ext| + 1 + k];
      }
      forall k | 0 <= k < |name| ensures name[k] != '.' {
        assert IsLower(bare[k]) || name[k] == bare[k];
      }
    }
  }

  /**
   * `file_name_ext(filename, size)`: the variant key and the extension name;
   * a variant key carries the same extension as the original.
   */
  function FileNameExt(filename: string, size: int): (r: (string, string))
    ensures r == (VariantKey(filename, size), ExtensionName(filename))
    ensures size <= 0 ==> r.0 == filename
    ensures size > 0 ==> SplitExt(r.0).1 == SplitExt(filename).1
  {
    if size > 0 then
      VariantKeySplit(filename, size);
      (VariantKey(filename, size), ExtensionName(filename))
    else
      (VariantKey(filename, size), ExtensionName(filename))
  }

  lemma DecimalOfPositive(n: int)
    requires n > 0
    ensures |Decimal(n)| >= 1 && forall k :: 0 <= k < |Decimal(n)| ==> IsDigit(Decimal(n)[k])
  {
  }

  /** The `-<size>` tag inserted into a variant key holds neither a dot nor a slash. */
  lemma TagHasNoDotOrSlash(root: string, size: int, ext: string)
    requires size > 0
    ensures var q := root + "-" + Decimal(size) + ext;
      forall k :: |root| <= k < |root| + 1 + |Decimal(size)| ==> q[k] != '.' && q[k] != '/'
  {
    var digits := Decimal(size);
    DecimalOfPositive(size);
    var q := root + "-" + digits + ext;
    forall k | |root| <= k < |root| + 1 + |digits| ensures q[k] != '.' && q[k] != '/' {
      if k == |root| { assert q[k] == '-'; }
      else { assert q[k] == digits[k - |root| - 1]; }
    }
  }

  /** With an extension, the cut of the variant key falls just before that same extension. */
  lemma {:induction false} VariantKeySplitWithExt(name: string, size: int)
    requires size > 0 && SplitExt(name).1 != []
    ensures var (root, ext) := SplitExt(name);
      SplitExt(root + "-" + Decimal(size) + ext) == (root + "-" + Decimal(size), ext)
  {
    var (root, ext) := SplitExt(name);
    var tagged := root + "-" + Decimal(size);
    var q := tagged + ext;
    assert q == root + "-" + Decimal(size) + ext;
    TagHasNoDotOrSlash(root, size, ext);
    var i := |tagged|;
    SplitExtCharacterised(name);
    assert ExtensionAt(name, |root|);
    assert q[i] == '.';
    forall k | i < k < |q| ensures q[k] != '.' && q[k] != '/' {
      assert q[k] == name[k - 1 - |Decimal(size)|];
    }
    assert 0 <= |root| < i && q[|root|] != '.' && q[|root|] != '/';
    assert forall k :: |root| < k < i ==> q[k] != '/';
    assert ExtensionAt(q, i);
    SplitExtCharacterised(q);
    assert q[..i] == tagged && q[i..] == ext;
  }

  /** Without an extension, appending the tag does not create one. */
  lemma {:induction false} VariantKeySplitNoExt(name: string, size: int)
    requires size > 0 && SplitExt(name).1 == []
    ensures SplitExt(name + "-" + Decimal(size)) == (name + "-" + Decimal(size), [])
  {
    var q := name + "-" + Decimal(size);
    assert q == name + "-" + Decimal(size) + [];
    TagHasNoDotOrSlash(name, size, []);
    SplitExtCharacterised(name);
    SplitExtCharacterised(q);
    if SplitExt(q).1 != [] {
      var i :| ExtensionAt(q, i);
      assert i < |name|;
      NoExtensionInPrefix(name, q, i);
      assert false;
    }
  }

  lemma NoExtensionInPrefix(name: string, q: string, i: int)
    requires |name| <= |q| && q[..|name|] == name && 0 <= i < |name|
    requires ExtensionAt(q, i)
    ensures ExtensionAt(name, i)
  {
    var j :| 0 <= j < i && q[j] != '.' && q[j] != '/' && forall k :: j < k < i ==> q[k] != '/';
    assert name[j] == q[j];
    assert forall k :: j < k < i ==> name[k] == q[k];
    assert forall k :: i <= k < |name| ==> name[k] == q[k];
  }

  /**
   * A variant key splits back into the original root with `-<size>` appended
   * and the original's extension: the variant keeps the image format's extension.
   */
  lemma VariantKeySplit(name: string, size: int)
    requires size > 0
    ensures var (root, ext) := SplitExt(name);
      SplitExt(VariantKey(name, size)) == (root + "-" + Decimal(size), ext)
  {
    if SplitExt(name).1 != [] {
      VariantKeySplitWithExt(name, size);
    } else {
      VariantKeySplitNoExt(name, size);
    }
  }

  /** Distinct positive sizes of one image never share a key. */
  lemma VariantKeysDistinct(name: string, a: int, b: int)
    requires a > 0 && b > 0 && VariantKey(name, a) == VariantKey(name, b)
    ensures a == b
  {
    VariantKeySplit(name, a);
    VariantKeySplit(name, b);
    var root := SplitExt(name).0;
    assert (root + "-" + Decimal(a))[|root| + 1..] == Decimal(a);
    assert (root + "-" + Decimal(b))[|root| + 1..] == Decimal(b);
    DecimalInjective(a, b);
  }

  /** A variant key is never the original's key, so caching a variant cannot overwrite the original. */
  lemma VariantKeyIsNotOriginal(name: string, size: int)
    requires size > 0
    ensures VariantKey(name, size) != name
  {
    DecimalOfPositive(size);
    assert |VariantKey(name, size)| > |name|;
  }
}
