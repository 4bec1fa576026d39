/**
 * Two small pieces of string handling: the tip list `carbon_footprint`
 * builds from the generator's reply, and the file extension `share_upload`
 * gives a stored image.
 */
module Helpers {
  import opened Wrappers
  import opened AsciiText
  import opened Seqs

  // ---------------------------------------------------------------------
  // carbon_footprint: tips
  // ---------------------------------------------------------------------

  /** `tips[:3]`. */
  const MaxTips := 3

  /** The characters of `line.strip("-•* ")`: hyphen, bullet, asterisk,
      space. */
  const BulletChars: set<char> := {'-', '\U{2022}', '*', ' '}

  /** `line.strip("-•* ").strip()`. */
  function CleanTip(line: string): (t: string)
    ensures t == [] || (!IsSpace(t[0]) && !IsSpace(t[|t| - 1]))
  {
    StripShape(StripChars(line, BulletChars));
    Strip(StripChars(line, BulletChars))
  }

  /** One element of the list comprehension: lines that are blank after
      `strip()` are filtered out. */
  function TipOf(line: string): Option<string> {
    if Strip(line) == [] then None else Some(CleanTip(line))
  }

  /** The `tips` answered for a reply: the cleaned non-blank lines, at most
      three. */
  function CarbonTips(reply: string): (tips: seq<string>)
    ensures |tips| <= MaxTips
  {
    var tips := FilterMap(TipOf, SplitOn(reply, '\n'));
    if |tips| <= MaxTips then tips else tips[..MaxTips]
  }

  /** A line yields a tip exactly when it is not blank. */
  lemma TipOfNonBlank(line: string)
    ensures TipOf(line).Some? <==> !IsBlank(line)
  {
    StripShape(line);
  }

  /** At most three tips, the `k`-th being the cleaned `k`-th non-blank line
      of the reply: `from` lists the positions of exactly the non-blank
      lines, in increasing order. */
  lemma CarbonTipsFromLines(reply: string)
    ensures var lines := SplitOn(reply, '\n');
            var from := Accepted(TipOf, lines);
            var tips := CarbonTips(reply);
            && |tips| == (if |from| <= MaxTips then |from| else MaxTips)
            && (forall j :: 0 <= j < |lines| ==> (!IsBlank(lines[j]) <==> j in from))
            && (forall k :: 0 <= k < |tips| ==> tips[k] == CleanTip(lines[from[k]]))
  {
    var lines := SplitOn(reply, '\n');
    FilterMapAccepted(TipOf, lines);
    forall j | 0 <= j < |lines| ensures !IsBlank(lines[j]) <==> TipOf(lines[j]).Some? {
      TipOfNonBlank(lines[j]);
    }
  }

  /** No tip begins or ends with whitespace. */
  lemma CarbonTipsTrimmed(reply: string)
    ensures forall t :: t in CarbonTips(reply) ==> t == [] || (!IsSpace(t[0]) && !IsSpace(t[|t| - 1]))
  {
    var lines := SplitOn(reply, '\n');
    var tips := FilterMap(TipOf, lines);
    assert forall line :: TipOf(line).Some? ==> TipOf(line).value == CleanTip(line);
    forall line | TipOf(line).Some?
      ensures var t := TipOf(line).value; t == [] || (!IsSpace(t[0]) && !IsSpace(t[|t| - 1]))
    {
      StripShape(StripChars(line, BulletChars));
    }
    FilterMapAll(TipOf, lines, t => t == [] || (!IsSpace(t[0]) && !IsSpace(t[|t| - 1])));
  }

  /** A tip text that survives cleaning unchanged: one line, not starting or
      ending with whitespace or a bullet character. */
  predicate PlainTip(t: string) {
    && t != [] && '\n' !in t
    && t[0] !in BulletChars && !IsSpace(t[0])
    && t[|t| - 1] !in BulletChars && !IsSpace(t[|t| - 1])
  }

  /** `- <tip>` gives back the tip. */
  lemma BulletLine(t: string)
    requires PlainTip(t)
    ensures TipOf("- " + t) == Some(t)
  {
    var line := "- " + t;
    TrimLeftPadded("- ", t, BulletChars);
    TrimRightPadded(t, [], BulletChars);
    assert t + [] == t;
    StripUnpadded(t);
    assert line[0] == '-' && line[|line| - 1] == t[|t| - 1];
    StripUnpadded(line);
  }

  lemma SplitThreeLines(x: string, y: string, z: string)
    requires '\n' !in x && '\n' !in y && '\n' !in z
    ensures SplitOn(x + "\n" + y + "\n" + z, '\n') == [x, y, z]
  {
    assert x + "\n" + y + "\n" + z == x + ['\n'] + (y + ['\n'] + z);
    SplitOnFirst(x, '\n', y + ['\n'] + z);
    SplitOnFirst(y, '\n', z);
    SplitOnNone(z, '\n');
  }

  lemma FilterMapOne<T, U>(f: T -> Option<U>, x: T)
    ensures FilterMap(f, [x]) == OptionToSeq(f(x))
  {
    assert [x][..0] == [];
  }

  lemma FilterMapThree<T, U>(f: T -> Option<U>, x: T, y: T, z: T)
    ensures FilterMap(f, [x, y, z]) == OptionToSeq(f(x)) + OptionToSeq(f(y)) + OptionToSeq(f(z))
  {
    assert [x, y, z] == [x] + [y] + [z];
    FilterMapAppend(f, [x] + [y], [z]);
    FilterMapAppend(f, [x], [y]);
    FilterMapOne(f, x);
    FilterMapOne(f, y);
    FilterMapOne(f, z);
  }

  /** A reply written as the prompt asks, three lines `- <tip>`, gives those
      three tips back. */
  lemma BulletListTips(a: string, b: string, c: string)
    requires PlainTip(a) && PlainTip(b) && PlainTip(c)
    ensures CarbonTips("- " + a + "\n- " + b + "\n- " + c) == [a, b, c]
  {
    var la, lb, lc := "- " + a, "- " + b, "- " + c;
    assert "- " + a + "\n- " + b + "\n- " + c == la + "\n" + lb + "\n" + lc;
    SplitThreeLines(la, lb, lc);
    BulletLine(a);
    BulletLine(b);
    BulletLine(c);
    FilterMapThree(TipOf, la, lb, lc);
  }

  // ---------------------------------------------------------------------
  // share_upload: extension
  // ---------------------------------------------------------------------

  /** `str.rfind(c)`: the last position holding `c`, or -1. */
  function RFind(s: string, c: char): (r: int)
    ensures -1 <= r < |s|
    ensures r >= 0 ==> s[r] == c
    ensures forall j :: r < j < |s| ==> s[j] != c
  {
    if s == [] then -1
    else if s[|s| - 1] == c then |s| - 1
    else RFind(s[..|s| - 1], c)
  }

  /** Some character other than `.` is present. */
  predicate HasNonDot(s: string) {
    s != [] && (s[0] != '.' || HasNonDot(s[1..]))
  }

  /** An extension as `splitext` returns it: a dot, then neither dots nor
      slashes. */
  predicate ExtensionShape(e: string) {
    |e| >= 1 && e[0] == '.' && forall j :: 1 <= j < |e| ==> e[j] != '.' && e[j] != '/'
  }

  lemma TailAfterLastDot(p: string, sep: int, dot: int)
    requires -1 <= sep < dot < |p| && p[dot] == '.'
    requires forall j :: dot < j < |p| ==> p[j] != '.'
    requires forall j :: sep < j < |p| ==> p[j] != '/'
    ensures ExtensionShape(p[dot..]) && p[..dot] + p[dot..] == p
  {
  }

  /** `os.path.splitext` for POSIX paths: the extension starts at the last
      `.` of the last path component, unless everything before it in that
      component is dots (a leading-dot name such as `.png` has no
      extension). */
  function SplitExt(p: string): (r: (string, string))
    ensures r.0 + r.1 == p
    ensures r.1 == [] || ExtensionShape(r.1)
  {
    var sep := RFind(p, '/');
    var dot := RFind(p, '.');
    if dot > sep && HasNonDot(p[sep + 1..dot]) then
      TailAfterLastDot(p, sep, dot);
      (p[..dot], p[dot..])
    else (p, [])
  }

  /** The extensions `share_upload` keeps. */
  const AllowedExtensions: set<string> := {".png", ".jpg", ".jpeg", ".webp"}

  /** `ext = splitext(filename or "")[1].lower() or ".png"`, then anything
      outside the allowed list becomes `.png`. `filename` is `None` when the
      upload carries no file name. */
  function ShareExtension(filename: Option<string>): (ext: string)
    ensures ext in AllowedExtensions
  {
    var name := if filename.Some? then filename.value else "";
    var e := Lower(SplitExt(name).1);
    var e' := if e == [] then ".png" else e;
    if e' in AllowedExtensions then e' else ".png"
  }

  /** A name whose last component has no extension gets `.png`, and so does
      an upload without a name. */
  lemma NoExtensionDefaultsToPng(name: string)
    requires SplitExt(name).1 == []
    ensures ShareExtension(Some(name)) == ".png" && ShareExtension(None) == ".png"
  {
    assert SplitExt("").1 == [];
  }

  /** Characters appended after the last occurrence do not move it. */
  lemma {:induction false} RFindAppend(a: string, b: string, c: char)
    requires c !in b
    ensures RFind(a + b, c) == RFind(a, c)
    decreases |b|
  {
    if b == [] {
      assert a + b == a;
    } else {
      assert (a + b)[..|a + b| - 1] == a + b[..|b| - 1];
      RFindAppend(a, b[..|b| - 1], c);
    }
  }

  /** An occurrence in the appended part is found there. */
  lemma RFindInSuffix(a: string, b: string, c: char)
    requires RFind(b, c) >= 0
    ensures RFind(a + b, c) == |a| + RFind(b, c)
  {
    var r := RFind(b, c);
    assert b == b[..r + 1] + b[r + 1..];
    var t := b[r + 1..];
    assert c !in t by {
      forall j | 0 <= j < |t| ensures t[j] != c {
        assert t[j] == b[r + 1 + j];
      }
    }
    RFindAppend(a + b[..r + 1], b[r + 1..], c);
    assert a + b == (a + b[..r + 1]) + b[r + 1..];
  }

  lemma {:induction false} HasNonDotExists(s: string)
    ensures HasNonDot(s) <==> exists i :: 0 <= i < |s| && s[i] != '.'
  {
    if s != [] {
      HasNonDotExists(s[1..]);
      if i :| 0 <= i < |s| && s[i] != '.' {
        if i > 0 {
          assert s[1..][i - 1] != '.';
        }
      }
      if i :| 0 <= i < |s[1..]| && s[1..][i] != '.' {
        assert s[i + 1] != '.';
      }
    }
  }

  /** A path is a directory part, empty or ending in `/`, then a last
      component without `/`. */
  predicate DirPart(dir: string) {
    dir == [] || dir[|dir| - 1] == '/'
  }

  /** The extension `SplitExt` returns, given the last `/` and the last
      `.`. */
  lemma SplitExtIs(p: string, sep: int, dot: int)
    requires sep == RFind(p, '/') && dot == RFind(p, '.')
    ensures SplitExt(p).1 == (if dot > sep && HasNonDot(p[sep + 1..dot]) then p[dot..] else [])
  {
  }

  /** Some character other than a dot comes before a dot. */
  predicate NonDotThenDot(name: string) {
    exists i, j :: 0 <= i < j < |name| && name[i] != '.' && name[j] == '.'
  }

  /** Some character other than a dot comes before a dot exactly when one
      comes before the last dot. */
  lemma NonDotBeforeDot(name: string)
    ensures NonDotThenDot(name) <==> RFind(name, '.') >= 0 && HasNonDot(name[..RFind(name, '.')])
  {
    var d := RFind(name, '.');
    if d >= 0 {
      HasNonDotExists(name[..d]);
      if i, j :| 0 <= i < j < |name| && name[i] != '.' && name[j] == '.' {
        assert j <= d;
        assert name[..d][i] != '.';
      }
      if HasNonDot(name[..d]) {
        var i :| 0 <= i < d && name[..d][i] != '.';
        assert name[i] != '.' && name[d] == '.';
      }
    }
  }

  lemma SplitExtLastDot(dir: string, name: string)
    requires DirPart(dir) && '/' !in name && RFind(name, '.') >= 0
    ensures var d := RFind(name, '.');
            SplitExt(dir + name).1 == (if HasNonDot(name[..d]) then name[d..] else [])
  {
    var p := dir + name;
    var d := RFind(name, '.');
    var sep := RFind(p, '/');
    var dot := RFind(p, '.');
    assert sep == |dir| - 1 by {
      RFindAppend(dir, name, '/');
    }
    assert dot == |dir| + d by {
      RFindInSuffix(dir, name, '.');
    }
    SliceOfAppend(dir, name, d);
    SplitExtIs(p, sep, dot);
  }

  lemma SliceOfAppend(a: string, b: string, d: nat)
    requires d <= |b|
    ensures (a + b)[|a|..|a| + d] == b[..d] && (a + b)[|a| + d..] == b[d..]
  {
  }

  lemma SplitExtNoDot(dir: string, name: string)
    requires DirPart(dir) && '/' !in name && RFind(name, '.') < 0
    ensures SplitExt(dir + name).1 == []
  {
    var p := dir + name;
    var sep := RFind(p, '/');
    var dot := RFind(p, '.');
    assert sep == |dir| - 1 by {
      RFindAppend(dir, name, '/');
    }
    assert dot <= sep by {
      assert '.' !in name;
      RFindAppend(dir, name, '.');
      assert dot < |dir| && (dot >= 0 ==> dir[dot] == '.');
    }
    SplitExtIs(p, sep, dot);
  }

  /** `splitext` looks only at the last component `name`: it finds an
      extension exactly when some character other than a dot comes before a
      dot of `name`, and the extension is then `name` from its last dot on. */
  lemma SplitExtComponent(dir: string, name: string)
    requires DirPart(dir) && '/' !in name
    ensures SplitExt(dir + name).1 != [] <==> NonDotThenDot(name)
    ensures SplitExt(dir + name).1 != [] ==> SplitExt(dir + name).1 == name[RFind(name, '.')..]
  {
    NonDotBeforeDot(name);
    if RFind(name, '.') >= 0 {
      SplitExtLastDot(dir, name);
    } else {
      SplitExtNoDot(dir, name);
    }
  }

  /** A last component made of dots, one more dot, and a dot-free tail has
      no extension: leading dots are ignored, so `.png` and `..png` are
      names. */
  lemma LeadingDotsNoExtension(dir: string, dots: string, ext: string)
    requires DirPart(dir) && '/' !in ext && '.' !in ext
    requires forall k :: 0 <= k < |dots| ==> dots[k] == '.'
    ensures SplitExt(dir + (dots + "." + ext)).1 == []
  {
    var name := dots + "." + ext;
    assert forall k :: 0 <= k <= |dots| ==> name[k] == '.';
    assert forall k :: |dots| < k < |name| ==> name[k] == ext[k - |dots| - 1];
    assert '/' !in name;
    forall i, j | 0 <= i < j < |name| && name[j] == '.' ensures name[i] == '.' {
      assert j <= |dots|;
    }
    SplitExtComponent(dir, name);
  }

  /** The facts about `base.ext` that `splitext` looks at. */
  lemma DottedName(base: string, ext: string)
    requires '/' !in ext && '.' !in ext && HasNonDot(base) && '/' !in base
    ensures var name := base + "." + ext;
            && '/' !in name && RFind(name, '.') == |base| && NonDotThenDot(name)
            && name[|base|..] == "." + ext
  {
    var name := base + "." + ext;
    var n := |base|;
    assert '/' !in name by {
      assert '/' !in ".";
    }
    assert RFind(name, '.') == n by {
      RFindAppend(base + ".", ext, '.');
    }
    HasNonDotExists(base);
    var i :| 0 <= i < n && base[i] != '.';
    assert name[i] == base[i] && name[n] == '.';
  }

  /** The parts `splitext` finds in `<dir>base.ext`. */
  lemma SplitExtOf(dir: string, base: string, ext: string)
    requires DirPart(dir) && '/' !in ext && '.' !in ext && HasNonDot(base) && '/' !in base
    ensures SplitExt(dir + (base + "." + ext)).1 == "." + ext
  {
    DottedName(base, ext);
    SplitExtComponent(dir, base + "." + ext);
  }

  /** An allowed extension in any letter case, after a base name that has a
      character other than a dot, in any directory, is kept, lower-cased. */
  lemma AllowedExtensionKept(dir: string, base: string, ext: string)
    requires DirPart(dir) && '/' !in ext && '.' !in ext && HasNonDot(base) && '/' !in base
    requires "." + Lower(ext) in AllowedExtensions
    ensures ShareExtension(Some(dir + (base + "." + ext))) == "." + Lower(ext)
  {
    SplitExtOf(dir, base, ext);
    assert Lower("." + ext) == "." + Lower(ext) by {
      assert LowerChar('.') == '.';
    }
  }

  /** Another extension, such as `.gif` or the `.gz` of `archive.tar.gz`,
      becomes `.png`. */
  lemma OtherExtensionBecomesPng(name: string)
    requires Lower(SplitExt(name).1) !in AllowedExtensions
    ensures ShareExtension(Some(name)) == ".png"
  {
  }

}
