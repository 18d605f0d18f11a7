/** Which paths a manifest may list, stated on the characters of the path. */
module ManifestPaths {
  import opened Paths
  import opened DeployModel
  import opened Manifest

  // ----- Components -----

  /** A stretch of a path between two slashes, or between a slash and an end. */
  predicate Bounded(path: string, i: int, j: int)
    ensures Bounded(path, i, j) ==> 0 <= i <= j <= |path|
  {
    && 0 <= i <= j <= |path| && '/' !in path[i..j]
    && (i == 0 || path[i - 1] == '/') && (j == |path| || path[j] == '/')
  }

  lemma {:induction false} ComponentsAre(path: string, part: string)
    ensures part in Components(path) <==> exists i, j :: Bounded(path, i, j) && path[i..j] == part
    decreases |path|
  {
    var slash := LastSlash(path);
    hide Bounded;
    if slash < 0 {
      WholeBounded(path, part);
    } else {
      ComponentsAre(path[..slash], part);
      BoundedBefore(path, slash, part);
      assert part in Components(path) <==> part in Components(path[..slash]) || part == path[slash + 1..];
    }
  }

  lemma WholeBounded(path: string, part: string)
    requires LastSlash(path) < 0
    ensures Components(path) == [path]
    ensures (exists i, j :: Bounded(path, i, j) && path[i..j] == part) <==> part == path
  {
    assert Bounded(path, 0, |path|) && path[0..|path|] == path;
    forall i, j | Bounded(path, i, j)
      ensures path[i..j] == path
    {
    }
  }

  lemma NoSlashInside(path: string, i: int, j: int, k: int)
    requires Bounded(path, i, j) && i <= k < j
    ensures path[k] != '/'
  {
    assert path[i..j][k - i] in path[i..j];
  }

  lemma BoundedInFront(path: string, slash: nat, i: int, j: int)
    requires slash < |path| && slash == LastSlash(path)
    ensures j <= slash ==> (Bounded(path, i, j) <==> Bounded(path[..slash], i, j))
    ensures 0 <= i <= j <= slash ==> path[..slash][i..j] == path[i..j]
  {
    var front := path[..slash];
    if 0 <= i <= j <= slash {
      assert front[i..j] == path[i..j];
      assert i > 0 ==> front[i - 1] == path[i - 1];
      assert j < slash ==> front[j] == path[j];
    }
  }

  lemma BoundedAtEnd(path: string, slash: nat, i: int, j: int)
    requires slash < |path| && slash == LastSlash(path) && j > slash
    ensures Bounded(path, i, j) <==> i == slash + 1 && j == |path|
  {
    if Bounded(path, i, j) {
      if i <= slash {
        NoSlashInside(path, i, j, slash);
      }
    }
  }

  lemma BoundedBefore(path: string, slash: nat, part: string)
    requires slash < |path| && slash == LastSlash(path)
    ensures (exists i, j :: Bounded(path, i, j) && path[i..j] == part)
       <==> (exists i, j :: Bounded(path[..slash], i, j) && path[..slash][i..j] == part) || part == path[slash + 1..]
  {
    var front := path[..slash];
    forall i, j
      ensures if j <= slash then Bounded(path, i, j) <==> Bounded(front, i, j) else Bounded(path, i, j) <==> i == slash + 1 && j == |path|
      ensures j <= slash && Bounded(front, i, j) ==> path[i..j] == front[i..j]
    {
      if j <= slash {
        BoundedInFront(path, slash, i, j);
      } else {
        BoundedAtEnd(path, slash, i, j);
      }
    }
    assert Bounded(path, slash + 1, |path|) && path[slash + 1..|path|] == path[slash + 1..];
    assert forall i, j :: Bounded(front, i, j) ==> j <= slash;
    hide Bounded;
    if i, j :| Bounded(path, i, j) && path[i..j] == part {
      assert j <= slash ==> Bounded(front, i, j) && front[i..j] == part;
    }
    if i, j :| Bounded(front, i, j) && front[i..j] == part {
      assert Bounded(path, i, j) && path[i..j] == part;
    }
  }

  /** A normalized path has no empty component, and none that is a dot or two dots. */
  lemma NormalizedIs(path: Path)
    ensures Normalized(path) <==>
      && path != "" && '\\' !in path && '\0' !in path
      && forall i, j :: Bounded(path, i, j) ==> path[i..j] != "" && path[i..j] != "." && path[i..j] != ".."
  {
    hide Components, Bounded;
    forall i, j | Bounded(path, i, j)
      ensures path[i..j] in Components(path)
    {
      ComponentsAre(path, path[i..j]);
    }
    forall part | part in Components(path)
      ensures exists i, j :: Bounded(path, i, j) && path[i..j] == part
    {
      ComponentsAre(path, part);
    }
  }

  // ----- Protected paths, whatever the case of their letters -----

  predicate SameLetter(c: char, low: char) {
    c == low || ('A' <= c <= 'Z' && c as int + 32 == low as int)
  }

  /** A text is a lower-case word, whatever the case of its letters. */
  predicate Spells(s: string, word: string) {
    |s| == |word| && forall i :: 0 <= i < |s| ==> SameLetter(s[i], word[i])
  }

  predicate SpellsEnd(s: string, word: string) {
    |word| <= |s| && Spells(s[|s| - |word|..], word)
  }

  /** No character is an upper-case letter. */
  predicate IsLower(word: string) {
    forall i :: 0 <= i < |word| ==> !('A' <= word[i] <= 'Z')
  }

  lemma {:induction false} LowerAt(s: string, i: nat)
    requires i < |s|
    ensures Lower(s)[i] == LowerChar(s[i])
  {
    if i < |s| - 1 {
      LowerAt(s[..|s| - 1], i);
    }
  }

  lemma LetterIs(c: char, low: char)
    requires !('A' <= low <= 'Z')
    ensures LowerChar(c) == low <==> SameLetter(c, low)
  {
  }

  lemma LowerSpells(s: string, word: string)
    requires IsLower(word)
    ensures Lower(s) == word <==> Spells(s, word)
  {
    hide LowerChar, SameLetter;
    if |s| == |word| {
      forall i: nat | i < |s|
        ensures Lower(s)[i] == word[i] <==> SameLetter(s[i], word[i])
      {
        LowerAt(s, i);
        LetterIs(s[i], word[i]);
      }
    }
  }

  lemma LowerEnds(s: string, word: string)
    requires IsLower(word)
    ensures EndsWith(Lower(s), word) <==> SpellsEnd(s, word)
  {
    hide LowerChar, SameLetter, Lower;
    if |word| <= |s| {
      var n := |s| - |word|;
      LowerSpells(s[n..], word);
      forall i: nat | i < |word|
        ensures Lower(s[n..])[i] == Lower(s)[n + i]
      {
        LowerAt(s, n + i);
        LowerAt(s[n..], i);
      }
      assert Lower(s)[n..] == Lower(s[n..]);
    }
  }

  predicate SpellsOne(s: string, words: seq<string>) {
    exists k :: 0 <= k < |words| && Spells(s, words[k])
  }

  predicate EndsInOne(s: string, words: seq<string>) {
    exists k :: 0 <= k < |words| && SpellsEnd(s, words[k])
  }

  predicate AllLower(words: seq<string>) {
    forall k :: 0 <= k < |words| ==> IsLower(words[k])
  }

  lemma LowerSpellsOne(s: string, words: seq<string>)
    requires AllLower(words)
    ensures Lower(s) in words <==> SpellsOne(s, words)
  {
    hide Lower, Spells, IsLower;
    forall k | 0 <= k < |words|
      ensures Lower(s) == words[k] <==> Spells(s, words[k])
    {
      LowerSpells(s, words[k]);
    }
  }

  lemma LowerEndsInOne(s: string, words: seq<string>)
    requires AllLower(words)
    ensures (exists word :: word in words && EndsWith(Lower(s), word)) <==> EndsInOne(s, words)
  {
    hide Lower, SpellsEnd, IsLower, EndsWith;
    forall k | 0 <= k < |words|
      ensures EndsWith(Lower(s), words[k]) <==> SpellsEnd(s, words[k])
    {
      LowerEnds(s, words[k]);
    }
    if word :| word in words && EndsWith(Lower(s), word) {
      var k :| 0 <= k < |words| && words[k] == word;
      assert SpellsEnd(s, words[k]);
    }
  }

  function Folders(): seq<string> {
    [".git", ".svn", "work", "csrc", "dvefiles", "verdilog", "__pycache__", "simv.daidir"]
  }

  function Files(): seq<string> {
    ["simv", "ucli.key", "vc_hdrs.h", "novas.conf", "novas.rc"]
  }

  function Endings(): seq<string> {
    [".xlsx", ".fsdb", ".vcd", ".vpd", ".vdb", ".log", ".pyc"]
  }

  lemma FoldersAreLower()
    ensures AllLower(Folders())
  {
  }

  lemma FilesAreLower()
    ensures AllLower(Files())
  {
  }

  lemma EndingsAreLower()
    ensures AllLower(Endings())
  {
  }

  lemma StartsAreLower()
    ensures IsLower("docs") && IsLower("tb") && IsLower("generated") && AllLower(["seq", "txt", "vip"])
  {
  }

  /**
   A path is protected if and only if one of its components is a build directory or ends like a build
   product, its last one is a build file, or it starts in a configuration directory, in any case of letters.
   */
  lemma ProtectedIs(parts: seq<string>)
    requires |parts| > 0
    ensures Protected(parts) <==>
      || (exists i :: 0 <= i < |parts| && (SpellsOne(parts[i], Folders()) || EndsInOne(parts[i], Endings())))
      || SpellsOne(parts[|parts| - 1], Files())
      || (|parts| >= 2 && Spells(parts[0], "docs") && SpellsOne(parts[1], ["seq", "txt", "vip"]))
      || (|parts| >= 2 && Spells(parts[0], "tb") && Spells(parts[1], "generated"))
  {
    FilesAreLower();
    PartsBlocked(parts);
    LowerSpellsOne(parts[|parts| - 1], Files());
    if |parts| >= 2 {
      StartsBlocked(parts[0], parts[1]);
    }
    hide Lower, SpellsOne, EndsInOne, EndsWith, Spells, AllLower, IsLower;
    assert Lower(parts[|parts| - 1]) in BLOCKED_NAMES <==> Lower(parts[|parts| - 1]) in Files();
  }

  lemma PartBlocked(part: string)
    ensures Lower(part) in BLOCKED_COMPONENTS || (exists suffix | suffix in BLOCKED_SUFFIXES :: EndsWith(Lower(part), suffix))
       <==> SpellsOne(part, Folders()) || EndsInOne(part, Endings())
  {
    FoldersAreLower();
    EndingsAreLower();
    LowerSpellsOne(part, Folders());
    LowerEndsInOne(part, Endings());
    hide Lower, SpellsOne, EndsInOne, EndsWith, AllLower, IsLower;
    assert Lower(part) in BLOCKED_COMPONENTS <==> Lower(part) in Folders();
  }

  predicate BlockedPart(part: string) {
    Lower(part) in BLOCKED_COMPONENTS || exists suffix | suffix in BLOCKED_SUFFIXES :: EndsWith(Lower(part), suffix)
  }

  lemma PartsBlocked(parts: seq<string>)
    ensures (exists part | part in parts :: Lower(part) in BLOCKED_COMPONENTS)
         || (exists part, suffix | part in parts && suffix in BLOCKED_SUFFIXES :: EndsWith(Lower(part), suffix))
       <==> exists i :: 0 <= i < |parts| && (SpellsOne(parts[i], Folders()) || EndsInOne(parts[i], Endings()))
  {
    hide Lower, SpellsOne, EndsInOne, EndsWith;
    assert (exists part | part in parts :: Lower(part) in BLOCKED_COMPONENTS)
        || (exists part, suffix | part in parts && suffix in BLOCKED_SUFFIXES :: EndsWith(Lower(part), suffix))
        <==> exists i :: 0 <= i < |parts| && BlockedPart(parts[i]) by { BlockedAt(parts); }
    forall i | 0 <= i < |parts|
      ensures BlockedPart(parts[i]) <==> SpellsOne(parts[i], Folders()) || EndsInOne(parts[i], Endings())
    {
      PartBlocked(parts[i]);
    }
    hide BlockedPart;
  }

  lemma BlockedAt(parts: seq<string>)
    ensures (exists part | part in parts :: Lower(part) in BLOCKED_COMPONENTS)
         || (exists part, suffix | part in parts && suffix in BLOCKED_SUFFIXES :: EndsWith(Lower(part), suffix))
       <==> exists i :: 0 <= i < |parts| && BlockedPart(parts[i])
  {
    hide Lower, EndsWith;
    if part :| part in parts && Lower(part) in BLOCKED_COMPONENTS {
      assert BlockedPart(part);
    }
    if part, suffix :| part in parts && suffix in BLOCKED_SUFFIXES && EndsWith(Lower(part), suffix) {
      assert BlockedPart(part);
    }
    if i :| 0 <= i < |parts| && BlockedPart(parts[i]) {
      assert parts[i] in parts;
    }
  }

  lemma StartsBlocked(a: string, b: string)
    ensures [Lower(a), Lower(b)] in BLOCKED_DIRECTORIES
       <==> (Spells(a, "docs") && SpellsOne(b, ["seq", "txt", "vip"])) || (Spells(a, "tb") && Spells(b, "generated"))
  {
    StartsAreLower();
    LowerSpells(a, "docs");
    LowerSpells(a, "tb");
    LowerSpells(b, "generated");
    LowerSpellsOne(b, ["seq", "txt", "vip"]);
    hide Lower, Spells, SpellsOne, IsLower;
    assert [Lower(a), Lower(b)] in BLOCKED_DIRECTORIES <==>
      || [Lower(a), Lower(b)] == ["docs", "seq"] || [Lower(a), Lower(b)] == ["docs", "txt"]
      || [Lower(a), Lower(b)] == ["docs", "vip"] || [Lower(a), Lower(b)] == ["tb", "generated"];
  }

  // ----- Hashes -----

  lemma HashIs(h: Hash)
    ensures IsHash(h) <==> |h| == 64 && forall c :: c in h ==> c in "0123456789abcdef"
  {
    var digits := "0123456789abcdef";
    if IsHash(h) {
      forall c | c in h
        ensures c in digits
      {
        DigitIs(c);
      }
    } else if |h| == 64 {
      var i :| 0 <= i < 64 && !('0' <= h[i] <= '9' || 'a' <= h[i] <= 'f');
      DigitIs(h[i]);
      assert h[i] in h;
    }
  }

  lemma DigitIs(c: char)
    ensures c in "0123456789abcdef" <==> '0' <= c <= '9' || 'a' <= c <= 'f'
  {
    var digits := "0123456789abcdef";
    if '0' <= c <= '9' {
      assert digits[c as int - '0' as int] == c;
    }
    if 'a' <= c <= 'f' {
      assert digits[c as int - 'a' as int + 10] == c;
    }
  }
}
