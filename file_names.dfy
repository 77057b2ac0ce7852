/**
  The file name under which a binary is published into an explicit structure
  group (BinaryPublisher.ConstructFileName): the base name of the binary's file
  name with "_<component id>_<variant id>" inserted before the extension, colons
  removed from both ids.
*/
module FileNames {
  import opened Wrappers

  /** Index of the last character of `s` satisfying `p`, or -1 when there is none. */
  function LastIndex(s: string, p: char -> bool): (r: int)
    ensures -1 <= r < |s|
    ensures r >= 0 ==> p(s[r])
    ensures forall j :: r < j < |s| ==> !p(s[j])
  {
    if s == [] then -1
    else if p(s[|s| - 1]) then |s| - 1
    else LastIndex(s[..|s| - 1], p)
  }

  /** The characters at which Path.GetFileName (.NET Framework) cuts a path:
      the directory separator, the alternative one and the volume separator. */
  predicate IsPathSeparator(c: char) {
    c == '\\' || c == '/' || c == ':'
  }

  /** Path.GetFileName: what follows the last separator, or the whole path. */
  function BaseName(path: string): (r: string)
    ensures |r| <= |path| && r == path[|path| - |r|..]
    ensures forall i :: 0 <= i < |r| ==> !IsPathSeparator(r[i])
    ensures |r| < |path| ==> IsPathSeparator(path[|path| - |r| - 1])
  {
    var i := LastIndex(path, IsPathSeparator);
    path[i + 1..]
  }

  /** The file name the regular expression is applied to: the base name,
      unless the name is empty (String.IsNullOrEmpty guard). */
  function FileNameOf(fileName: string): (r: string)
    ensures forall i :: 0 <= i < |r| ==> !IsPathSeparator(r[i])
  {
    if fileName != "" then BaseName(fileName) else fileName
  }

  /** `s` with every ':' removed (string.Replace(":", "")). */
  function RemoveColons(s: string): (r: string)
    ensures |r| <= |s|
    ensures forall i :: 0 <= i < |r| ==> r[i] != ':'
  {
    if s == [] then []
    else (if s[0] == ':' then [] else [s[0]]) + RemoveColons(s[1..])
  }

  /** A string without colons is left as it is. */
  lemma {:induction false} RemoveColonsKeepsPlain(s: string)
    requires forall i :: 0 <= i < |s| ==> s[i] != ':'
    ensures RemoveColons(s) == s
  {
    if s != [] {
      RemoveColonsKeepsPlain(s[1..]);
    }
  }

  lemma {:induction false} RemoveColonsAppend(a: string, b: string)
    ensures RemoveColons(a + b) == RemoveColons(a) + RemoveColons(b)
  {
    if a == [] {
      assert a + b == b;
    } else {
      assert (a + b)[1..] == a[1..] + b;
      RemoveColonsAppend(a[1..], b);
    }
  }

  /** `i` is the position of the last dot of `name`. */
  predicate IsLastDot(name: string, i: int) {
    0 <= i < |name| && name[i] == '.' && forall j :: i < j < |name| ==> name[j] != '.'
  }

  /** The regular expression ^(.*)\.([^\.]+)$ matches `name`: there is a last
      dot and a non-empty extension after it. */
  predicate HasExtension(name: string) {
    exists i :: 0 <= i < |name| - 1 && IsLastDot(name, i)
  }

  /** The two groups of the match: the stem before the last dot and the extension after it. */
  datatype Split = Split(stem: string, extension: string)

  predicate IsDot(c: char) { c == '.' }

  function SplitExtension(name: string): (r: Option<Split>)
    ensures r.Some? <==> HasExtension(name)
    ensures r.Some? ==> name == r.value.stem + "." + r.value.extension
    ensures r.Some? ==> r.value.extension != [] && '.' !in r.value.extension
    ensures r.Some? ==> IsLastDot(name, |r.value.stem|)
  {
    var i := LastIndex(name, IsDot);
    if 0 <= i < |name| - 1 then
      assert IsLastDot(name, i);
      assert name == name[..i] + "." + name[i + 1..];
      Some(Split(name[..i], name[i + 1..]))
    else
      NoExtension(name, i);
      None
  }

  /** When the last dot is missing or ends the name, the expression does not match. */
  lemma NoExtension(name: string, i: int)
    requires i == -1 || i == |name| - 1
    requires i >= 0 ==> name[i] == '.'
    requires forall j :: i < j < |name| ==> name[j] != '.'
    ensures !HasExtension(name)
  {
  }

  /** A name splits in only one way into a stem, a dot and a dot-free extension:
      the greedy (.*) can only stop at the last dot. */
  lemma SplitIsUnique(stem1: string, ext1: string, stem2: string, ext2: string)
    requires stem1 + "." + ext1 == stem2 + "." + ext2
    requires '.' !in ext1 && '.' !in ext2
    ensures stem1 == stem2 && ext1 == ext2
  {
    var name := stem1 + "." + ext1;
    assert IsLastDot(name, |stem1|) by {
      forall j | |stem1| < j < |name| ensures name[j] != '.' {
        assert name[j] == ext1[j - |stem1| - 1];
      }
    }
    assert IsLastDot(name, |stem2|) by {
      forall j | |stem2| < j < |name| ensures name[j] != '.' {
        assert name[j] == ext2[j - |stem2| - 1];
      }
    }
    assert |stem1| == |stem2|;
    assert stem1 == name[..|stem1|] == stem2;
    assert ext1 == name[|stem1| + 1..] == ext2;
  }

  /** BinaryPublisher.ConstructFileName: when the base name has an extension,
      "_<id>_<variant>" (colons removed) goes in front of its last dot;
      otherwise the regular expression does not match and the base name is returned. */
  function ConstructFileName(fileName: string, componentId: string, variantId: string): (r: string)
    ensures !HasExtension(FileNameOf(fileName)) ==> r == FileNameOf(fileName)
  {
    InsertBeforeExtension(FileNameOf(fileName), "_" + RemoveColons(componentId) + "_" + RemoveColons(variantId))
  }

  /** The replacement "$1" + infix + ".$2" when the expression matches `name`. */
  function InsertBeforeExtension(name: string, infix: string): (r: string)
    ensures !HasExtension(name) ==> r == name
    ensures HasExtension(name) ==> |r| == |name| + |infix|
  {
    match SplitExtension(name)
    case None => name
    case Some(Split(stem, extension)) => stem + infix + "." + extension
  }

  /** Where the infix goes: right before the last dot. */
  lemma InsertedAtLastDot(name: string, infix: string, i: int)
    requires IsLastDot(name, i) && i < |name| - 1
    ensures InsertBeforeExtension(name, infix) == name[..i] + infix + name[i..]
  {
    var split := SplitExtension(name);
    LastDotIsUnique(name, i, |split.value.stem|);
    assert name[..i] == split.value.stem;
    assert name[i..] == "." + split.value.extension;
    var front := split.value.stem + infix;
    assert front + "." + split.value.extension == front + ("." + split.value.extension);
  }

  /** A name has at most one last dot. */
  lemma LastDotIsUnique(name: string, i: int, j: int)
    requires IsLastDot(name, i) && IsLastDot(name, j)
    ensures i == j
  {
  }

  /** The documented example: the "tcm" prefix survives, only the colons go. */
  lemma ConstructFileNameExample(fileName: string, id: string, variant: string)
    requires fileName == "photo.jpg" && id == "tcm:1-42" && variant == "tcm:1-99-32"
    ensures ConstructFileName(fileName, id, variant) == "photo_tcm1-42_tcm1-99-32.jpg"
  {
    PhotoJpgIsPlain(fileName);
    RemoveColonsOfTcmUri(id, "1-42");
    RemoveColonsOfTcmUri(variant, "1-99-32");
    InsertedBeforeLastDot(fileName, 5, fileName, id, variant);
    ExampleParts(fileName[..5], RemoveColons(id), RemoveColons(variant), fileName[5..]);
  }

  lemma ExampleParts(stem: string, id: string, variant: string, extension: string)
    requires stem == "photo" && id == "tcm1-42" && variant == "tcm1-99-32" && extension == ".jpg"
    ensures stem + ("_" + id + "_" + variant) + extension == "photo_tcm1-42_tcm1-99-32.jpg"
  {
    assert "_" + id + "_" + variant == "_tcm1-42_tcm1-99-32";
    assert stem + ("_" + id + "_" + variant) == "photo_tcm1-42_tcm1-99-32";
  }

  lemma PhotoJpgIsPlain(fileName: string)
    requires fileName == "photo.jpg"
    ensures FileNameOf(fileName) == fileName && IsLastDot(fileName, 5)
  {
    assert fileName == ['p', 'h', 'o', 't', 'o', '.', 'j', 'p', 'g'];
    forall k | 0 <= k < |fileName| ensures !IsPathSeparator(fileName[k]) && (5 < k ==> fileName[k] != '.') {
      assert fileName[k] in {'p', 'h', 'o', 't', '.', 'j', 'g'};
    }
    PlainNameIsKept(fileName);
  }

  /** A non-empty name without separators is its own base name. */
  lemma PlainNameIsKept(name: string)
    requires name != [] && forall k :: 0 <= k < |name| ==> !IsPathSeparator(name[k])
    ensures FileNameOf(name) == name
  {
    var i := LastIndex(name, IsPathSeparator);
    assert i == -1;
  }

  /** Removing colons from "tcm:" followed by a colon-free rest keeps the "tcm". */
  lemma RemoveColonsOfTcmUri(uri: string, rest: string)
    requires uri == "tcm:" + rest && forall i :: 0 <= i < |rest| ==> rest[i] != ':'
    ensures RemoveColons(uri) == "tcm" + rest
  {
    TcmHasNoColon();
    RemoveColonsDropsLeadingColon(rest);
    RemoveColonsAppend("tcm", ":" + rest);
    assert uri == "tcm" + (":" + rest);
  }

  lemma TcmHasNoColon()
    ensures RemoveColons("tcm") == "tcm"
  {
    RemoveColonsKeepsPlain("tcm");
  }

  lemma RemoveColonsDropsLeadingColon(rest: string)
    requires forall i :: 0 <= i < |rest| ==> rest[i] != ':'
    ensures RemoveColons(":" + rest) == rest
  {
    RemoveColonsKeepsPlain(rest);
    assert RemoveColons(":") == [] by {
      assert ":"[1..] == [];
    }
    RemoveColonsAppend(":", rest);
  }

  /** A name made by inserting `infix` before the last dot of `name`. */
  lemma InsertedBeforeLastDot(name: string, i: int, fileName: string, id: string, variant: string)
    requires name == FileNameOf(fileName) && IsLastDot(name, i) && i < |name| - 1
    ensures ConstructFileName(fileName, id, variant)
         == name[..i] + ("_" + RemoveColons(id) + "_" + RemoveColons(variant)) + name[i..]
  {
    InsertedAtLastDot(name, "_" + RemoveColons(id) + "_" + RemoveColons(variant), i);
  }

  /** The same binary published under two variants whose ids differ (after
      removing colons) gets two different file names. */
  lemma {:induction false} VariantsDoNotCollide(fileName: string, id: string, variant1: string, variant2: string)
    requires HasExtension(FileNameOf(fileName))
    requires RemoveColons(variant1) != RemoveColons(variant2)
    ensures ConstructFileName(fileName, id, variant1) != ConstructFileName(fileName, id, variant2)
  {
    var name := FileNameOf(fileName);
    var i :| 0 <= i < |name| - 1 && IsLastDot(name, i);
    InsertedBeforeLastDot(name, i, fileName, id, variant1);
    InsertedBeforeLastDot(name, i, fileName, id, variant2);
    InsertionsDiffer(name[..i], RemoveColons(id), RemoveColons(id), RemoveColons(variant1), RemoveColons(variant2), name[i..]);
  }

  /** Two components with different ids (after removing colons) never share a
      file name for the same base name and variant. */
  lemma {:induction false} ComponentsDoNotCollide(fileName: string, id1: string, id2: string, variant: string)
    requires HasExtension(FileNameOf(fileName))
    requires RemoveColons(id1) != RemoveColons(id2)
    ensures ConstructFileName(fileName, id1, variant) != ConstructFileName(fileName, id2, variant)
  {
    var name := FileNameOf(fileName);
    var i :| 0 <= i < |name| - 1 && IsLastDot(name, i);
    InsertedBeforeLastDot(name, i, fileName, id1, variant);
    InsertedBeforeLastDot(name, i, fileName, id2, variant);
    InsertionsDiffer(name[..i], RemoveColons(id1), RemoveColons(id2), RemoveColons(variant), RemoveColons(variant), name[i..]);
  }

  /** A base name without an extension is not matched, so it is published
      under the same name whatever the component and the variant: two
      templates publishing it into the same structure group collide. */
  lemma ExtensionlessNameIgnoresIds(fileName: string, id1: string, variant1: string, id2: string, variant2: string)
    requires !HasExtension(FileNameOf(fileName))
    ensures ConstructFileName(fileName, id1, variant1) == FileNameOf(fileName)
    ensures ConstructFileName(fileName, id1, variant1) == ConstructFileName(fileName, id2, variant2)
  {
  }

  /** `photo` under two templates: both publications are named `photo`. */
  lemma ExtensionlessCollisionExample(fileName: string, id: string, variant1: string, variant2: string)
    requires fileName == "photo" && id == "tcm:1-1" && variant1 == "tcm:1-2" && variant2 == "tcm:1-3"
    ensures ConstructFileName(fileName, id, variant1) == ConstructFileName(fileName, id, variant2) == "photo"
  {
    assert fileName == ['p', 'h', 'o', 't', 'o'];
    forall k | 0 <= k < |fileName| ensures !IsPathSeparator(fileName[k]) && fileName[k] != '.' {
      assert fileName[k] in {'p', 'h', 'o', 't'};
    }
    PlainNameIsKept(fileName);
    NoExtension(fileName, -1);
  }

  /** "_a_b" inserted at the same place: different (a, b) with the same a or
      the same b give different strings. */
  lemma InsertionsDiffer(head: string, a1: string, a2: string, b1: string, b2: string, tail: string)
    requires (a1 == a2 && b1 != b2) || (a1 != a2 && b1 == b2)
    ensures head + ("_" + a1 + "_" + b1) + tail != head + ("_" + a2 + "_" + b2) + tail
  {
    var r1 := head + ("_" + a1 + "_" + b1) + tail;
    var r2 := head + ("_" + a2 + "_" + b2) + tail;
    if |a1| == |a2| && |b1| == |b2| {
      assert a1 == r1[|head| + 1..|head| + 1 + |a1|];
      assert a2 == r2[|head| + 1..|head| + 1 + |a2|];
      assert b1 == r1[|head| + 2 + |a1|..|head| + 2 + |a1| + |b1|];
      assert b2 == r2[|head| + 2 + |a2|..|head| + 2 + |a2| + |b2|];
    }
  }

  /** The constructed name carries no colon: Path.GetFileName cuts the name
      after its last colon and the replacement strips the colons of the ids. */
  lemma {:induction false} ConstructedNameHasNoColon(fileName: string, id: string, variant: string)
    ensures var r := ConstructFileName(fileName, id, variant);
      forall k :: 0 <= k < |r| ==> r[k] != ':'
  {
    var name := FileNameOf(fileName);
    if HasExtension(name) {
      var i :| 0 <= i < |name| - 1 && IsLastDot(name, i);
      InsertedBeforeLastDot(name, i, fileName, id, variant);
      NameKeepsAll(name, i, IsNotColon);
      AllOfInsertion(name[..i], RemoveColons(id), RemoveColons(variant), name[i..], IsNotColon);
    }
  }

  /** The directory part of the binary's file name plays no part in the name:
      only what follows the last separator is kept. */
  lemma {:induction false} DirectoryIsDropped(directory: string, separator: char, name: string, id: string, variant: string)
    requires IsPathSeparator(separator)
    requires name != [] && forall k :: 0 <= k < |name| ==> !IsPathSeparator(name[k])
    ensures ConstructFileName(directory + [separator] + name, id, variant) == ConstructFileName(name, id, variant)
  {
    var path := directory + [separator] + name;
    var r := BaseName(path);
    assert BaseName(name) == name;
    assert path[|path| - |name| - 1] == separator;
    assert |r| >= |name|;
    assert |r| <= |name|;
    assert path[|path| - |name|..] == name;
    assert FileNameOf(path) == FileNameOf(name);
  }

  /** The base name has no separator, so both sides of its last dot have none. */
  lemma NameKeepsAll(name: string, i: int, p: char -> bool)
    requires 0 <= i <= |name|
    requires forall k :: 0 <= k < |name| ==> !IsPathSeparator(name[k])
    requires forall c :: !IsPathSeparator(c) ==> p(c)
    ensures forall k :: 0 <= k < |name[..i]| ==> p(name[..i][k])
    ensures forall k :: 0 <= k < |name[i..]| ==> p(name[i..][k])
  {
  }

  predicate IsNotColon(c: char) { c != ':' }

  /** A property of every character of the pieces and of '_' holds of every
      character of head + "_" + a + "_" + b + tail. */
  lemma AllOfInsertion(head: string, a: string, b: string, tail: string, p: char -> bool)
    requires p('_')
    requires forall k :: 0 <= k < |head| ==> p(head[k])
    requires forall k :: 0 <= k < |a| ==> p(a[k])
    requires forall k :: 0 <= k < |b| ==> p(b[k])
    requires forall k :: 0 <= k < |tail| ==> p(tail[k])
    ensures var r := head + ("_" + a + "_" + b) + tail; forall k :: 0 <= k < |r| ==> p(r[k])
  {
    var r := head + ("_" + a + "_" + b) + tail;
    forall k | 0 <= k < |r| ensures p(r[k]) {
      if k < |head| {
        assert r[k] == head[k];
      } else if k == |head| {
      } else if k < |head| + 1 + |a| {
        assert r[k] == a[k - |head| - 1];
      } else if k == |head| + 1 + |a| {
      } else if k < |head| + 2 + |a| + |b| {
        assert r[k] == b[k - |head| - 2 - |a|];
      } else {
        assert r[k] == tail[k - |head| - 2 - |a| - |b|];
      }
    }
  }
}
