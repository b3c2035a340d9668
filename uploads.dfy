/** The upload configuration of the account server: the image filter, the
    5 MB size limit, the generated name the picture is stored under and the
    reference path recorded for the user. Node's `path.extname`, which both
    the filter and the stored name rely on, is modelled here too. */
module Uploads {

  /** The `fileSize` limit handed to the upload middleware: 5 MB. */
  const MaxFileSize: nat := 5 * 1024 * 1024

  /** The alternatives of the pattern /jpeg|jpg|png|gif/. */
  const AllowedTypes: seq<string> := ["jpeg", "jpg", "png", "gif"]

  /** `toLowerCase` on ASCII; no other character can lower into one of the
      four allowed words, so the filter's verdict does not depend on the rest. */
  function LowerChar(c: char): char {
    if 'A' <= c <= 'Z' then (c as int + 32) as char else c
  }

  function Lowered(s: string): (r: string)
    ensures |r| == |s|
  {
    seq(|s|, i requires 0 <= i < |s| => LowerChar(s[i]))
  }

  /** `w` occurs in `s` at position `i`. */
  ghost predicate OccursAt(w: string, s: string, i: int) {
    0 <= i && i + |w| <= |s| && s[i..i + |w|] == w
  }

  ghost predicate Occurs(w: string, s: string) {
    exists i :: OccursAt(w, s, i)
  }

  /** An occurrence in `s` past position 0 is an occurrence in `s[1..]`. */
  lemma OccursInTail(w: string, s: string)
    requires s != [] && !OccursAt(w, s, 0)
    ensures Occurs(w, s) <==> Occurs(w, s[1..])
  {
    if Occurs(w, s) {
      var i :| OccursAt(w, s, i);
      assert s[1..][i - 1..i - 1 + |w|] == s[i..i + |w|];
      assert OccursAt(w, s[1..], i - 1);
    }
    if Occurs(w, s[1..]) {
      var j :| OccursAt(w, s[1..], j);
      assert 0 <= j && j + |w| <= |s| - 1;
      assert s[1..][j..j + |w|] == s[j + 1..j + 1 + |w|];
      assert OccursAt(w, s, j + 1);
    }
  }

  /** A word with a character that is absent from `s` does not occur in it. */
  lemma AbsentChar(w: string, s: string, k: int)
    requires 0 <= k < |w| && w[k] !in s
    ensures !Occurs(w, s)
  {
  }

  /** A search for `w` anywhere in `s`: one alternative of an unanchored pattern. */
  function Contains(s: string, w: string): (b: bool)
    ensures b <==> Occurs(w, s)
    decreases |s|
  {
    if |s| < |w| then
      assert forall i :: !OccursAt(w, s, i);
      false
    else if s[..|w|] == w then
      assert OccursAt(w, s, 0);
      true
    else
      OccursInTail(w, s);
      Contains(s[1..], w)
  }

  /** `/jpeg|jpg|png|gif/.test(s)`: the pattern has no anchors, so it
      matches whenever one of the four words appears anywhere in `s`. */
  function MatchesAllowedTypes(s: string): (b: bool)
    ensures b <==> exists w | w in AllowedTypes :: Occurs(w, s)
  {
    Contains(s, "jpeg") || Contains(s, "jpg") || Contains(s, "png") || Contains(s, "gif")
  }

  /** A text without 'j', 'n' and 'f' matches none of the four words. */
  lemma NoAllowedType(s: string)
    requires 'j' !in s && 'n' !in s && 'f' !in s
    ensures !MatchesAllowedTypes(s)
  {
    AbsentChar("jpeg", s, 0);
    AbsentChar("jpg", s, 0);
    AbsentChar("png", s, 1);
    AbsentChar("gif", s, 2);
  }

  /** The path without the slashes at its end. */
  function TrimTrailingSlashes(path: string): (r: string)
    ensures |r| <= |path| && r == path[..|r|]
    ensures r == [] || r[|r| - 1] != '/'
    decreases |path|
  {
    if path != [] && path[|path| - 1] == '/' then TrimTrailingSlashes(path[..|path| - 1]) else path
  }

  /** The position of the last `c` in `s`, or -1. */
  function LastIndexOf(s: string, c: char): (r: int)
    ensures -1 <= r < |s|
    ensures r >= 0 ==> s[r] == c
    ensures forall j | r < j < |s| :: s[j] != c
    decreases |s|
  {
    if s == [] then -1
    else if s[|s| - 1] == c then |s| - 1
    else LastIndexOf(s[..|s| - 1], c)
  }

  /** The last component of the path, trailing slashes ignored. */
  function BaseName(path: string): (base: string)
    ensures '/' !in base
  {
    var trimmed := TrimTrailingSlashes(path);
    trimmed[LastIndexOf(trimmed, '/') + 1..]
  }

  /** Node's `path.extname` (POSIX flavour): from the last dot of the last
      path component to its end; empty when that component has no dot, when
      its only dot-free start is the dot itself (".profile"), or when it is "..". */
  function Extname(path: string): (ext: string)
    ensures ext == [] || (ext[0] == '.' && '.' !in ext[1..])
    ensures '/' !in ext
    ensures |ext| < |BaseName(path)| || ext == []
    ensures ext == BaseName(path)[|BaseName(path)| - |ext|..]
  {
    var base := BaseName(path);
    var dot := LastIndexOf(base, '.');
    if dot <= 0 || base == ".." then [] else base[dot..]
  }

  /** `path.extname` is non-empty exactly when the last path component is
      not ".." and has a dot past its first character. With the contract of
      `Extname`, this makes the extension the text from the last dot on,
      as in ".html" for "index.html" and ".png" for "a.b.png". */
  lemma ExtnameNonEmpty(path: string)
    ensures var base := BaseName(path);
      Extname(path) != [] <==> base != ".." && exists d | 0 < d < |base| :: base[d] == '.'
  {
  }

  /** The upload middleware's `fileFilter`: the lowercased extension of the
      client's file name and the declared MIME type (not lowercased) must both
      match the pattern. */
  function FileFilter(originalName: string, mimeType: string): (accepted: bool)
    ensures accepted <==>
      (exists w | w in AllowedTypes :: Occurs(w, mimeType)) &&
      (exists w | w in AllowedTypes :: Occurs(w, Lowered(Extname(originalName))))
    ensures accepted ==> |Extname(originalName)| >= 4
  {
    var ext := Lowered(Extname(originalName));
    var result := MatchesAllowedTypes(mimeType) && MatchesAllowedTypes(ext);
    assert result ==> |ext| >= 4 by {
      if result {
        var w :| w in AllowedTypes && Occurs(w, ext);
        var i :| OccursAt(w, ext, i);
        // the word follows the leading dot, since a word holds no dot
        assert ext[0] == '.' && w[0] != '.';
      }
    }
    result
  }

  /** A file as the upload middleware sees it. */
  datatype UploadedFile = UploadedFile(originalName: string, mimeType: string, size: nat)

  datatype Verdict = Accepted | Rejected(message: string)

  /** What the middleware does with a file before the handler runs: the
      filter is asked first, then the size limit applies while the file is
      streamed. The messages are those of the errors it raises. */
  function Screen(file: UploadedFile): (v: Verdict)
    ensures v.Accepted? <==> FileFilter(file.originalName, file.mimeType) && file.size <= MaxFileSize
    ensures !FileFilter(file.originalName, file.mimeType) ==> v == Rejected("Only image files are allowed!")
    ensures FileFilter(file.originalName, file.mimeType) && file.size > MaxFileSize ==> v == Rejected("File too large")
  {
    if !FileFilter(file.originalName, file.mimeType) then Rejected("Only image files are allowed!")
    else if file.size > MaxFileSize then Rejected("File too large")
    else Accepted
  }

  predicate IsDigitChar(c: char) { '0' <= c <= '9' }

  /** JavaScript's decimal rendering of a non-negative integer. */
  function DecimalString(n: nat): (r: string)
    ensures |r| >= 1
    ensures forall i | 0 <= i < |r| :: IsDigitChar(r[i])
    ensures n >= 10 <==> |r| >= 2
    decreases n
  {
    var digit := ('0' as int + n % 10) as char;
    if n < 10 then [digit] else DecimalString(n / 10) + [digit]
  }

  /** The suffix built from `Date.now()` and `Math.round(Math.random() * 1E9)`. */
  function UniqueSuffix(millis: nat, random: nat): (suffix: string)
    ensures '.' !in suffix && '/' !in suffix
  {
    DecimalString(millis) + "-" + DecimalString(random)
  }

  /** The storage `filename` callback: "profile-", the suffix, then the
      extension of the client's file name. */
  function StoredName(suffix: string, originalName: string): string {
    "profile-" + suffix + Extname(originalName)
  }

  /** Where each part sits in a stored name: "profile-" in the first eight
      places, the suffix after it, and the original extension at the end. */
  lemma StoredNameLayout(suffix: string, originalName: string)
    ensures var name := StoredName(suffix, originalName);
      && |name| == 8 + |suffix| + |Extname(originalName)|
      && name[..8] == "profile-" && name[8..8 + |suffix|] == suffix
      && name[8 + |suffix|..] == Extname(originalName)
  {
  }

  /** The reference recorded for the user and returned to the client (the
      source builds the same string in both of its environments). */
  function ProfilePath(filename: string): (path: string)
    ensures |path| == 9 + |filename| && path[..9] == "/uploads/" && path[9..] == filename
  {
    "/uploads/" + filename
  }

  /** Different stored names are recorded under different paths, and the
      stored name can be read back from the path. */
  lemma ProfilePathInjective(filename1: string, filename2: string)
    requires ProfilePath(filename1) == ProfilePath(filename2)
    ensures filename1 == filename2
  {
    assert filename1 == ProfilePath(filename1)[9..];
  }

  /** A file name without directories whose last dot is not its first
      character has the text from that dot on as its extension. */
  lemma ExtnameOfPlainName(stem: string, ext: string)
    requires stem != [] && '.' !in stem && '/' !in stem
    requires ext != [] && ext[0] == '.' && '.' !in ext[1..] && '/' !in ext
    ensures Extname(stem + ext) == ext
  {
    var name := stem + ext;
    assert '/' !in name;
    assert BaseName(name) == name by {
      assert name[|name| - 1] != '/';
      assert TrimTrailingSlashes(name) == name;
      assert LastIndexOf(name, '/') == -1;
    }
    LastDotOfJoin(stem, ext);
    assert LastIndexOf(BaseName(name), '.') == |stem| > 0;
    assert name[0] == stem[0] && BaseName(name) != "..";
    assert name[|stem|..] == ext;
  }

  /** The stored name keeps the extension of the uploaded file: asking
      `extname` of it gives back exactly the original extension. */
  lemma StoredNameKeepsExtension(suffix: string, originalName: string)
    requires '.' !in suffix && '/' !in suffix
    ensures Extname(StoredName(suffix, originalName)) == Extname(originalName)
  {
    var ext := Extname(originalName);
    var head := "profile-" + suffix;
    assert '.' !in head && '/' !in head;
    if ext == [] {
      var stored := head + ext;
      assert stored == head;
      assert BaseName(stored) == stored by {
        assert stored[|stored| - 1] != '/';
        assert TrimTrailingSlashes(stored) == stored;
        assert LastIndexOf(stored, '/') == -1;
      }
      assert LastIndexOf(stored, '.') == -1;
    } else {
      ExtnameOfPlainName(head, ext);
    }
  }

  /** Joining a dot-free head to a text whose only dot is its first
      character puts the last dot right after the head. */
  lemma LastDotOfJoin(head: string, ext: string)
    requires '.' !in head && ext != [] && ext[0] == '.' && '.' !in ext[1..]
    ensures LastIndexOf(head + ext, '.') == |head|
  {
    var joined := head + ext;
    assert joined[|head|] == '.';
    forall j | |head| < j < |joined| ensures joined[j] != '.' {
      assert joined[j] == ext[1..][j - |head| - 1];
    }
  }

  /** Two stored names are equal only when both suffix and extension are:
      the suffix can be read back from the stored name. */
  lemma StoredNameInjective(suffix1: string, name1: string, suffix2: string, name2: string)
    requires '.' !in suffix1 && '/' !in suffix1
    requires '.' !in suffix2 && '/' !in suffix2
    requires StoredName(suffix1, name1) == StoredName(suffix2, name2)
    ensures suffix1 == suffix2 && Extname(name1) == Extname(name2)
  {
    StoredNameKeepsExtension(suffix1, name1);
    StoredNameKeepsExtension(suffix2, name2);
    var e := Extname(name1);
    var s1, s2 := StoredName(suffix1, name1), StoredName(suffix2, name2);
    assert s1[..|s1| - |e|] == "profile-" + suffix1;
    assert s2[..|s2| - |e|] == "profile-" + suffix2;
    assert suffix1 == ("profile-" + suffix1)[8..];
    assert suffix2 == ("profile-" + suffix2)[8..];
  }

  /** Different numbers have different decimal renderings. */
  lemma {:induction false} DecimalStringInjective(a: nat, b: nat)
    requires DecimalString(a) == DecimalString(b)
    ensures a == b
    decreases a
  {
    var da, db := DecimalString(a), DecimalString(b);
    if a >= 10 && b >= 10 {
      assert da[..|da| - 1] == DecimalString(a / 10);
      assert db[..|db| - 1] == DecimalString(b / 10);
      DecimalStringInjective(a / 10, b / 10);
      assert a % 10 == b % 10 by {
        assert da[|da| - 1] == db[|db| - 1];
      }
    } else {
      assert a < 10 && b < 10;
      assert da[0] == db[0];
    }
  }

  /** The suffix determines the two numbers it was built from: the one '-'
      in it separates them, and each is a decimal rendering. */
  lemma UniqueSuffixInjective(millis1: nat, random1: nat, millis2: nat, random2: nat)
    requires UniqueSuffix(millis1, random1) == UniqueSuffix(millis2, random2)
    ensures millis1 == millis2 && random1 == random2
  {
    var m1, m2 := DecimalString(millis1), DecimalString(millis2);
    var r1, r2 := DecimalString(random1), DecimalString(random2);
    var u := m1 + "-" + r1;
    assert u == m2 + "-" + r2;
    assert |m1| == |m2| by {
      assert u[|m1|] == '-' && u[|m2|] == '-';
    }
    assert m1 == u[..|m1|] == m2;
    assert r1 == u[|m1| + 1..] == r2;
    DecimalStringInjective(millis1, millis2);
    DecimalStringInjective(random1, random2);
  }

  /** Uploads made at different milliseconds, or with different random
      numbers, are stored under different names. */
  lemma StoredNamesDistinct(millis1: nat, random1: nat, name1: string, millis2: nat, random2: nat, name2: string)
    requires (millis1, random1) != (millis2, random2)
    ensures StoredName(UniqueSuffix(millis1, random1), name1) != StoredName(UniqueSuffix(millis2, random2), name2)
  {
    if StoredName(UniqueSuffix(millis1, random1), name1) == StoredName(UniqueSuffix(millis2, random2), name2) {
      StoredNameInjective(UniqueSuffix(millis1, random1), name1, UniqueSuffix(millis2, random2), name2);
      UniqueSuffixInjective(millis1, random1, millis2, random2);
    }
  }

  /** A file whose extension, once lowercased, contains none of the
      letters 'j', 'n' and 'f' is refused whatever type it declares, for
      instance "agent.exe". */
  lemma FilterRefusesNonImageExtension(stem: string, ext: string, mimeType: string)
    requires stem != [] && '.' !in stem && '/' !in stem
    requires ext != [] && ext[0] == '.' && '.' !in ext[1..] && '/' !in ext
    requires var e := Lowered(ext); 'j' !in e && 'n' !in e && 'f' !in e
    ensures !FileFilter(stem + ext, mimeType)
  {
    ExtnameOfPlainName(stem, ext);
    NoAllowedType(Lowered(ext));
  }

  /** The filter function compares the type it is handed without
      lowercasing it, so it refuses the type "image/PNG" whatever the name. */
  lemma FilterIsCaseSensitiveOnType(name: string)
    ensures !FileFilter(name, "image/PNG")
  {
    NoAllowedType("image/PNG");
  }
}
