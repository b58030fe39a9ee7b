// Which texts are relative artifact paths, and which component is the file name.
module PathSpelling {
  import opened Paths

  /** Ordinary components: no separator, not empty, and neither `.` nor `..`. */
  predicate Ordinary(parts: seq<string>) {
    forall p :: p in parts ==> '/' !in p && p != "" && p != "." && p != ".."
  }

  lemma {:induction false} SplitPlain(s: string, sep: char)
    requires sep !in s
    ensures Split(s, sep) == [s]
  {
    if s != "" {
      SplitPlain(s[1..], sep);
      assert s == [s[0]] + s[1..];
    }
  }

  lemma {:induction false} SplitConcat(a: string, b: string, sep: char)
    ensures Split(a + [sep] + b, sep) == Split(a, sep) + Split(b, sep)
  {
    var s := a + [sep] + b;
    if a == "" {
      assert s[1..] == b;
    } else {
      assert s[1..] == a[1..] + [sep] + b;
      SplitConcat(a[1..], b, sep);
    }
  }

  lemma {:induction false} SplitJoin(parts: seq<string>, sep: char)
    requires parts != [] && forall p :: p in parts ==> sep !in p
    ensures Split(Join(parts, sep), sep) == parts
  {
    SplitPlain(parts[0], sep);
    if |parts| > 1 {
      SplitJoin(parts[1..], sep);
      SplitConcat(parts[0], Join(parts[1..], sep), sep);
    }
  }

  lemma {:induction false} SignificantKeeps(parts: seq<string>)
    requires forall p :: p in parts ==> p != "" && p != "."
    ensures Significant(parts) == parts
  {
    if parts != [] {
      assert forall p :: p in parts[1..] ==> p in parts;
      SignificantKeeps(parts[1..]);
      assert parts[0] in parts && parts == [parts[0]] + parts[1..];
    }
  }

  lemma {:induction false} SignificantConcat(a: seq<string>, b: seq<string>)
    ensures Significant(a + b) == Significant(a) + Significant(b)
  {
    if a == [] {
      assert a + b == b;
    } else {
      assert (a + b)[1..] == a[1..] + b;
      SignificantConcat(a[1..], b);
    }
  }

  lemma JoinedIsRelative(parts: seq<string>)
    requires parts != [] && Ordinary(parts)
    ensures Parts(Join(parts, '/')) == parts && IsRelativeArtifactPath(Join(parts, '/'))
  {
    SplitJoin(parts, '/');
    SignificantKeeps(parts);
    assert Join(parts, '/')[0] == parts[0][0];
  }

  /** A text is accepted as a relative artifact path exactly when it is ordinary components joined by
      single slashes, or a dot alone. */
  lemma RelativeExactly(s: string)
    ensures IsRelativeArtifactPath(s) <==> s == "." || exists parts :: parts != [] && Ordinary(parts) && s == Join(parts, '/')
  {
    if s == "." {
      SplitPlain(s, '/');
      assert Significant([s]) == [];
    } else if IsRelativeArtifactPath(s) {
      assert Parts(s) != [] && Ordinary(Parts(s)) && s == Join(Parts(s), '/');
    }
    forall parts | parts != [] && Ordinary(parts) ensures IsRelativeArtifactPath(Join(parts, '/')) {
      JoinedIsRelative(parts);
    }
  }

  /** The file name is the last component; empty components and dots at the end are passed over. */
  lemma FileNameExactly(directory: string, name: string)
    requires '/' !in name
    ensures FileName(directory + "/" + name) == if name == "" || name == "." then FileName(directory) else name
    ensures FileName(name) == if name == "." then "" else name
  {
    SplitPlain(name, '/');
    SplitConcat(directory, name, '/');
    SignificantConcat(Split(directory, '/'), [name]);
    assert Significant([name]) == if name == "" || name == "." then [] else [name];
  }
}
