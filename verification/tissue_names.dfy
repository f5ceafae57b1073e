/**
  Tissue keys derived from edge-list file names. A file of an age folder is
  read only when its name ends in `.csv`; the extension is dropped the way
  Python's `os.path.splitext` drops it, and the age suffix after the last
  underscore is cut off (`rsplit('_', 1)[0]`).
 */
module TissueNames {

  datatype Option<T> = None | Some(value: T)

  const EXTENSION: string := ".csv"

  /** The file is one the folder loop reads (`file_name.endswith(".csv")`). */
  predicate IsCsv(fileName: string) {
    |fileName| >= |EXTENSION| && fileName[|fileName| - |EXTENSION|..] == EXTENSION
  }

  /** Only dots: `splitext` skips leading dots, so such a name has no extension. */
  predicate AllDots(s: string) {
    forall k :: 0 <= k < |s| ==> s[k] == '.'
  }

  /**
    `os.path.splitext(fileName)[0]` for a name ending in `.csv`: the last dot
    is the one of the extension, and it splits only when some character before
    it is not a dot (".csv" and "..csv" keep their whole name).
   */
  function Stem(fileName: string): (r: string)
    requires IsCsv(fileName)
    ensures r <= fileName
    ensures !AllDots(fileName[..|fileName| - |EXTENSION|]) <==> r + EXTENSION == fileName
    ensures AllDots(fileName[..|fileName| - |EXTENSION|]) ==> r == fileName
  {
    var front := fileName[..|fileName| - |EXTENSION|];
    assert fileName == front + EXTENSION;
    if AllDots(front) then fileName else front
  }

  /**
    `s.rsplit('_', 1)[0]`: everything before the last underscore, or the whole
    string when it has none.
   */
  function DropAgeSuffix(s: string): (r: string)
    ensures r <= s
    ensures '_' !in s ==> r == s
    ensures '_' in s ==> |r| < |s| && s[|r|] == '_' && '_' !in s[|r| + 1..]
    decreases |s|
  {
    if |s| == 0 then s
    else if s[|s| - 1] == '_' then s[..|s| - 1]
    else
      var front := s[..|s| - 1];
      var p := DropAgeSuffix(front);
      if '_' in front then
        assert s[|p| + 1..] == front[|p| + 1..] + [s[|s| - 1]];
        p
      else
        assert '_' !in s by {
          assert s == front + [s[|s| - 1]];
        }
        s
  }

  /** Lines 23-26 of the folder loop: `None` for a file that is not read. */
  function TissueOf(fileName: string): (r: Option<string>)
    ensures r.Some? <==> IsCsv(fileName)
    ensures r.Some? ==> r.value <= fileName
  {
    if IsCsv(fileName) then Some(DropAgeSuffix(Stem(fileName))) else None
  }

  /**
    The naming convention `<tissue>_<age>.csv` round-trips: the key is the
    tissue part, even when the tissue itself contains underscores, as long
    as the age part does not.
   */
  lemma NamingRoundTrip(tissue: string, age: string)
    requires '_' !in age
    ensures TissueOf(tissue + "_" + age + EXTENSION) == Some(tissue)
  {
    var stem := tissue + "_" + age;
    var name := stem + EXTENSION;
    assert name[..|name| - |EXTENSION|] == stem;
    assert stem[|tissue|] == '_';
    assert !AllDots(stem);
    var r := DropAgeSuffix(stem);
    assert stem[|tissue| + 1..] == age;
    assert |r| == |tissue|;
    assert r == stem[..|tissue|] == tissue;
    assert Stem(name) == stem;
  }

  /** A stem without any underscore is kept whole. */
  lemma NoSuffixKept(stem: string)
    requires '_' !in stem && !AllDots(stem)
    ensures TissueOf(stem + EXTENSION) == Some(stem)
  {
    var name := stem + EXTENSION;
    assert name[..|name| - |EXTENSION|] == stem;
  }
}
