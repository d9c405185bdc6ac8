/**
 * How Python's pathlib splits a file name into a stem and a suffix.  The
 * suffix is called the extension here, to keep it apart from the renamer's
 * own "suffix" parameters.  The extension runs from the last '.' to the end
 * of the name, but only when that dot is neither the first nor the last
 * character; otherwise the extension is empty and the stem is the whole name.
 */
module PathName {

  /** Index of the last occurrence of `c` in `s`, or -1 (Python's str.rfind). */
  function RFind(s: seq<char>, c: char): (i: int)
    ensures -1 <= i < |s|
    ensures 0 <= i ==> s[i] == c
    ensures forall j :: i < j < |s| ==> s[j] != c
  {
    if s == [] then -1
    else if s[|s| - 1] == c then |s| - 1
    else RFind(s[..|s| - 1], c)
  }

  /** A name has an extension when its last dot is neither its first nor its last character. */
  predicate HasExtension(name: seq<char>) {
    0 < RFind(name, '.') < |name| - 1
  }

  /** What an extension looks like: a dot, then at least one character, and no other dot. */
  predicate IsExtension(ext: seq<char>) {
    |ext| >= 2 && ext[0] == '.' && forall j :: 1 <= j < |ext| ==> ext[j] != '.'
  }

  /** pathlib's `suffix`. */
  function Extension(name: seq<char>): (ext: seq<char>)
    ensures ext != [] <==> HasExtension(name)
    ensures ext == [] || IsExtension(ext)
  {
    if HasExtension(name) then name[RFind(name, '.')..] else []
  }

  /** pathlib's `stem`: the name without its extension. */
  function Stem(name: seq<char>): (stem: seq<char>)
    ensures stem + Extension(name) == name
    ensures stem == [] <==> name == []
  {
    if HasExtension(name) then name[..RFind(name, '.')] else name
  }

  /** Gluing a non-empty stem to a well-formed extension splits back into the same two parts. */
  lemma {:induction false} SplitJoin(stem: seq<char>, ext: seq<char>)
    requires stem != [] && IsExtension(ext)
    ensures Stem(stem + ext) == stem && Extension(stem + ext) == ext
  {
    var name := stem + ext;
    var i := RFind(name, '.');
    assert name[|stem|] == '.';
    assert forall j :: |stem| < j < |name| ==> name[j] == ext[j - |stem|];
  }

  /** Names with their dots at the same positions split at the same position. */
  lemma {:induction false} SameDotsSplit(a: seq<char>, b: seq<char>)
    requires |a| == |b|
    requires forall j :: 0 <= j < |a| ==> (a[j] == '.' <==> b[j] == '.')
    ensures RFind(a, '.') == RFind(b, '.')
    ensures HasExtension(a) == HasExtension(b) && |Stem(a)| == |Stem(b)|
  {
    if a != [] && a[|a| - 1] != '.' {
      SameDotsSplit(a[..|a| - 1], b[..|b| - 1]);
    }
  }
}
