/**
 * GetCategory: the category of a file, looked up by its extension in a fixed
 * table. The table is a std::map, so it is visited in the order of its keys;
 * the first category whose list holds the extension wins, and "other" is
 * the answer when none does. Extensions are compared exactly, so case
 * matters.
 *
 * The extension is taken as std::filesystem::path::extension takes it, for
 * '/'-separated paths: the file name is the text after the last '/', and
 * its extension runs from its last '.' to the end, unless that '.' is the
 * first character of the name or the name is "." or "..", in which cases
 * there is none.
 */
module Categories {
  import opened Wrappers
  import opened Strings

  datatype Category = Category(name: string, extensions: seq<string>)

  /** The table in key order. */
  const CategoryTable: seq<Category> := [
    Category("doc", [".txt", ".md", ".pdf", ".htm", ".html"]),
    Category("header", [".h", ".hpp"]),
    Category("library", [".a", ".lib"]),
    Category("linkerScript", [".sct", ".scf", ".ld", ".icf"]),
    Category("object", [".o"]),
    Category("sourceAsm", [".asm", ".s", ".S"]),
    Category("sourceC", [".c", ".C"]),
    Category("sourceCpp", [".cpp", ".c++", ".C++", ".cxx", ".cc", ".CC"])
  ]

  const Other := "other"

  /** The last component of a '/'-separated path. */
  function FileName(path: string): string {
    match FindLast(path, '/')
    case Some(k) => path[k + 1..]
    case None => path
  }

  /** The extension of a file name, with its dot; "" when there is none. */
  function Extension(name: string): string {
    if name == "." || name == ".." then ""
    else match FindLast(name, '.')
      case Some(k) => if k == 0 then "" else name[k..]
      case None => ""
  }

  /** The first category at or after index `i` whose list holds `ext`, or "other". */
  function CategoryFrom(ext: string, i: nat): string
    requires i <= |CategoryTable|
    decreases |CategoryTable| - i
  {
    if i == |CategoryTable| then Other
    else if ext in CategoryTable[i].extensions then CategoryTable[i].name
    else CategoryFrom(ext, i + 1)
  }

  /** The category of an extension. */
  function CategoryOfExtension(ext: string): string {
    CategoryFrom(ext, 0)
  }

  /** What GetCategory returns for `file`. */
  function CategoryOf(file: string): string {
    CategoryOfExtension(Extension(FileName(file)))
  }

  /** GetCategory: walk the table and return at the first list that holds the extension. */
  method GetCategory(file: string) returns (category: string)
    ensures category == CategoryOf(file)
  {
    var ext := Extension(FileName(file));
    for i := 0 to |CategoryTable|
      invariant CategoryFrom(ext, i) == CategoryFrom(ext, 0)
    {
      if ext in CategoryTable[i].extensions {
        return CategoryTable[i].name;
      }
    }
    return Other;
  }

  /** No category is called "other". */
  lemma NamesAreNotOther()
    ensures forall i :: 0 <= i < |CategoryTable| ==> CategoryTable[i].name != Other
  {
  }

  /**
   * The search from `i` answers "other" exactly when no list from `i` on
   * holds `ext`, and otherwise the name of the first list that does.
   */
  lemma {:induction false} CategoryFromFinds(ext: string, i: nat)
    requires i <= |CategoryTable|
    ensures CategoryFrom(ext, i) == Other <==> forall j :: i <= j < |CategoryTable| ==> ext !in CategoryTable[j].extensions
    ensures CategoryFrom(ext, i) != Other ==>
      exists j :: && i <= j < |CategoryTable| && ext in CategoryTable[j].extensions
                  && CategoryFrom(ext, i) == CategoryTable[j].name
                  && forall k :: i <= k < j ==> ext !in CategoryTable[k].extensions
    decreases |CategoryTable| - i
  {
    NamesAreNotOther();
    if i < |CategoryTable| && ext !in CategoryTable[i].extensions {
      CategoryFromFinds(ext, i + 1);
      if CategoryFrom(ext, i) != Other {
        var j :| && i + 1 <= j < |CategoryTable| && ext in CategoryTable[j].extensions
                 && CategoryFrom(ext, i + 1) == CategoryTable[j].name
                 && forall k :: i + 1 <= k < j ==> ext !in CategoryTable[k].extensions;
        assert forall k :: i <= k < j ==> ext !in CategoryTable[k].extensions;
      }
    }
  }

  /**
   * GetCategory's answer is "other" exactly when no list holds the
   * extension; otherwise it is the name of the first category, in key
   * order, whose list holds it.
   */
  lemma CategoryOfSpec(file: string)
    ensures var ext := Extension(FileName(file));
      && (CategoryOf(file) == Other <==> forall i :: 0 <= i < |CategoryTable| ==> ext !in CategoryTable[i].extensions)
      && (CategoryOf(file) != Other ==>
            exists i :: && 0 <= i < |CategoryTable| && ext in CategoryTable[i].extensions
                        && CategoryOf(file) == CategoryTable[i].name
                        && forall k :: 0 <= k < i ==> ext !in CategoryTable[k].extensions)
  {
    CategoryFromFinds(Extension(FileName(file)), 0);
  }

  /** The file name of `dir/name` is `name`. */
  lemma FileNameAfterSlash(dir: string, name: string)
    requires '/' !in name
    ensures FileName(dir + "/" + name) == name
  {
    FindLastAt(dir, '/', name);
    assert dir + "/" + name == dir + ['/'] + name;
  }

  /** The extension of `stem.x`, with a non-empty stem and a non-empty `x`, is `.x`. */
  lemma ExtensionAfterDot(stem: string, x: string)
    requires stem != "" && x != "" && '.' !in x
    ensures Extension(stem + "." + x) == "." + x
  {
    FindLastAt(stem, '.', x);
    assert stem + "." + x == stem + ['.'] + x;
    assert |stem + "." + x| >= 3;
  }

  /** In `dir/stem.x`, with a non-empty stem and a non-empty `x`, the extension is `.x`. */
  lemma ExtensionOfPath(dir: string, stem: string, x: string)
    requires stem != "" && x != "" && '/' !in stem && '/' !in x && '.' !in x
    ensures Extension(FileName(dir + "/" + stem + "." + x)) == "." + x
  {
    var name := stem + "." + x;
    assert '/' !in name;
    assert dir + "/" + stem + "." + x == dir + "/" + name;
    FileNameAfterSlash(dir, name);
    ExtensionAfterDot(stem, x);
  }

  /** A name whose only dot is its first character has no extension: ".c" is "other". */
  lemma LeadingDotHasNoExtension(x: string)
    requires '/' !in x && '.' !in x
    ensures Extension(FileName("." + x)) == ""
    ensures CategoryOf("." + x) == Other
  {
    FindLastSpec("." + x, '/');
    FindLastAt("", '.', x);
    assert "" + ['.'] + x == "." + x;
  }

  /** The category of `dir/stem.x` is the category of `.x`. */
  lemma CategoryOfPath(dir: string, stem: string, x: string)
    requires stem != "" && x != "" && '/' !in stem && '/' !in x && '.' !in x
    ensures CategoryOf(dir + "/" + stem + "." + x) == CategoryOfExtension("." + x)
  {
    ExtensionOfPath(dir, stem, x);
  }

  /** Case matters: ".C" is a C source, listed beside ".c". */
  lemma UpperCaseCIsSourceC()
    ensures CategoryOfExtension(".C") == "sourceC"
  {
  }

  /** Case matters: ".CC" is a C++ source, listed beside ".cc". */
  lemma UpperCaseCCIsSourceCpp()
    ensures CategoryOfExtension(".CC") == "sourceCpp"
  {
  }

  /** Case matters: ".TXT" is not a document. */
  lemma UpperCaseTxtIsOther()
    ensures CategoryOfExtension(".TXT") == Other
  {
  }
}
