/** What the pipeline decides from a file name alone: whether it is an image
    (`_is_image_file` and the inline extension tests of the other variants),
    whether its stem looks machine-generated (`_is_random_name`), and the
    marker-prefixed name given to such files (`add_prefix_to_image`). */
module ImageNames {
  import opened Text

  /** The recognised suffixes, compared against the lower-cased name. */
  const ImageExtensions: seq<string> := [".jpg", ".jpeg", ".png", ".gif", ".bmp"]

  /** The marker prepended to opaque names: the four characters 疑似网图. */
  const DefaultPrefix: string := "\U{7591}\U{4F3C}\U{7F51}\U{56FE}"

  /** `name.lower().endswith(ImageExtensions)`. */
  predicate IsImageFile(name: string) {
    exists k :: 0 <= k < |ImageExtensions| && EndsWith(Lower(name), ImageExtensions[k])
  }

  predicate IsAsciiAlnum(c: char) {
    'a' <= c <= 'z' || 'A' <= c <= 'Z' || '0' <= c <= '9'
  }

  /** One or more ASCII letters or digits: `[a-zA-Z0-9]+`. */
  predicate AlnumRun(s: string) {
    1 <= |s| && forall i :: 0 <= i < |s| ==> IsAsciiAlnum(s[i])
  }

  /** `re.match(r"^[a-zA-Z0-9]+$", stem)`: the stem is a run of ASCII letters
      and digits; Python's `$` also accepts one trailing newline. */
  predicate IsOpaqueName(name: string) {
    var st := Stem(name);
    AlnumRun(st) || (2 <= |st| && st[|st| - 1] == '\n' && AlnumRun(st[..|st| - 1]))
  }

  /** `f"{prefix}_{file_name}"`. */
  function PrefixedName(prefix: string, name: string): string {
    prefix + "_" + name
  }

  // ---------------------------------------------------------------- lemmas

  /** Every recognised suffix is a dot followed by dot-free letters. */
  lemma ExtensionShape(k: nat)
    requires k < |ImageExtensions|
    ensures var e := ImageExtensions[k]; 2 <= |e| && e[0] == '.' && NoDot(e[1..])
    ensures forall i :: 0 <= i < |ImageExtensions[k]| ==> ImageExtensions[k][i] != '_'
  {
    var e := ImageExtensions[k];
    assert e[1..] in ["jpg", "jpeg", "png", "gif", "bmp"];
  }

  lemma LowerSuffix(s: string, p: nat)
    requires p <= |s|
    ensures Lower(s[p..]) == Lower(s)[p..]
  {
  }

  /** An accepted name's extension, as `os.path.splitext` cuts it, is one of
      the five in some letter case, unless everything before the final dot is
      dots (`.jpg`), which `splitext` treats as having no extension. */
  lemma ImageFileExtension(name: string)
    requires IsImageFile(name)
    ensures 0 <= LastIndexOf(name, '.')
    ensures Lower(Ext(name)) in ImageExtensions || OnlyDots(name[..LastIndexOf(name, '.')])
  {
    var l := Lower(name);
    var k :| 0 <= k < |ImageExtensions| && EndsWith(l, ImageExtensions[k]);
    var e := ImageExtensions[k];
    ExtensionShape(k);
    var p := |name| - |e|;
    var tail := l[p..];
    assert tail == e;
    assert l[p] == '.' by { assert tail[0] == l[p]; }
    assert name[p] == '.';
    forall j | p < j < |name| ensures name[j] != '.' {
      assert tail[j - p] == l[j];
      assert e[j - p] == e[1..][j - p - 1];
    }
    var d := LastIndexOf(name, '.');
    assert d == p;
    if !OnlyDots(name[..d]) {
      assert Ext(name) == name[p..];
      LowerSuffix(name, p);
    }
  }

  lemma LowerAppend(a: string, b: string)
    ensures Lower(a + b) == Lower(a) + Lower(b)
  {
    assert forall i :: 0 <= i < |a| ==> (a + b)[i] == a[i];
    assert forall i :: |a| <= i < |a| + |b| ==> (a + b)[i] == b[i - |a|];
  }

  /** A suffix without `_` ends a string behind a `_` exactly when it ends
      the part after the `_`. */
  lemma SuffixPastUnderscore(h: string, t: string, e: string)
    requires |h| > 0 && h[|h| - 1] == '_'
    requires forall i :: 0 <= i < |e| ==> e[i] != '_'
    ensures EndsWith(h + t, e) <==> EndsWith(t, e)
  {
    var s := h + t;
    if |e| <= |t| {
      assert s[|s| - |e|..] == t[|t| - |e|..];
    } else if |e| <= |s| {
      var i := |e| - |t| - 1;
      assert s[|s| - |e|..][i] == s[|h| - 1] == '_';
    }
  }

  /** Putting a prefix and `_` in front of a name cannot change whether it ends
      with an image suffix: no suffix contains `_`. */
  lemma SuffixAfterPrefix(prefix: string, name: string, e: string)
    requires e in ImageExtensions
    ensures EndsWith(Lower(PrefixedName(prefix, name)), e) <==> EndsWith(Lower(name), e)
  {
    var head := prefix + "_";
    LowerAppend(head, name);
    assert Lower(PrefixedName(prefix, name)) == Lower(head) + Lower(name);
    var k :| 0 <= k < |ImageExtensions| && ImageExtensions[k] == e;
    ExtensionShape(k);
    SuffixPastUnderscore(Lower(head), Lower(name), e);
  }

  /** Prefixing never changes whether a name is an image. */
  lemma PrefixedNameKeepsImage(prefix: string, name: string)
    ensures IsImageFile(PrefixedName(prefix, name)) <==> IsImageFile(name)
  {
    forall k | 0 <= k < |ImageExtensions|
      ensures EndsWith(Lower(PrefixedName(prefix, name)), ImageExtensions[k])
          <==> EndsWith(Lower(name), ImageExtensions[k])
    {
      SuffixAfterPrefix(prefix, name, ImageExtensions[k]);
    }
  }

  /** A prefixed name never looks opaque again, so the marker is applied at
      most once: the `_` after the prefix sits in the new stem. */
  lemma PrefixedNameNotOpaque(prefix: string, name: string)
    requires NoDot(prefix)
    ensures !IsOpaqueName(PrefixedName(prefix, name))
  {
    var full := PrefixedName(prefix, name);
    var u := |prefix|;
    assert full[u] == '_';
    var st := Stem(full);
    var x := Ext(full);
    assert full == st + x;
    if x != [] {
      assert full[|st|] == '.';
      assert forall i :: 0 <= i <= u ==> full[i] != '.';
    }
    assert u < |st|;
    assert st[u] == '_';
    assert !IsAsciiAlnum(st[u]);
    if 2 <= |st| && st[|st| - 1] == '\n' && u < |st| - 1 {
      assert !IsAsciiAlnum(st[..|st| - 1][u]);
    }
  }

  /** For an opaque name and a dot-free prefix, the prefixed name keeps the
      original extension verbatim; only the stem grows. */
  lemma PrefixedNameSplit(prefix: string, name: string)
    requires NoDot(prefix) && IsOpaqueName(name)
    ensures SplitExt(PrefixedName(prefix, name)) == (prefix + "_" + Stem(name), Ext(name))
  {
    var st := Stem(name);
    var x := Ext(name);
    var full := PrefixedName(prefix, name);
    assert NoDot(st) by {
      if AlnumRun(st) {
        assert forall i :: 0 <= i < |st| ==> IsAsciiAlnum(st[i]);
      } else {
        var t := st[..|st| - 1];
        assert forall i :: 0 <= i < |t| ==> IsAsciiAlnum(t[i]);
        assert forall i :: 0 <= i < |t| ==> st[i] == t[i];
      }
    }
    var head := prefix + "_" + st;
    assert full == head + x;
    assert NoDot(head);
    if x == [] {
      assert NoDot(full);
      assert LastIndexOf(full, '.') == -1;
    } else {
      LastDotOfJoin(head, x);
      assert full[..|head|] == head;
      assert !OnlyDots(head) by { assert head[|prefix|] == '_'; }
      assert full[|head|..] == x;
    }
  }
}
