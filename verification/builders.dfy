/** What the script builders share (`builder/abstract_builder.py`): the line
    comment marker, the file extension and the two-line header. */
module Builders {

  import opened Wrappers
  import opened Strings

  /** `AbstractBuilder` and its two concrete subclasses. */
  datatype Builder = AbstractBuilder | SqliteScriptBuilder | PythonScriptBuilder

  /** The class attribute `COMMENT`. */
  function Comment(b: Builder): (r: string)
    ensures '\n' !in r
  {
    match b
    case AbstractBuilder => ""
    case SqliteScriptBuilder => "--"
    case PythonScriptBuilder => "#"
  }

  /** The class attribute `EXT`: no subclass overrides the empty default. */
  function Ext(b: Builder): string {
    ""
  }

  /** `get_dump_filepath(filepath)`: the path followed by `EXT`. As no builder
      sets an extension, the path comes back unchanged. */
  function DumpFilepath(b: Builder, filepath: string): (r: string)
    ensures r == filepath
  {
    filepath + Ext(b)
  }

  const BuildWith: string := " Build with architectSQLite v"
  const Tagline: string := "A bullb_ull's lazy tool"

  /** `generate_header()`: two lines, each opened by `COMMENT`; the first names
      the tool version, the second is a fixed tag line. No date is included. */
  function Header(b: Builder, version: string): (r: string)
    ensures |Comment(b)| <= |r| && r[..|Comment(b)|] == Comment(b)
  {
    Comment(b) + BuildWith + version + "\n" + Comment(b) + Tagline
  }

  /** The first header line. */
  function VersionLine(b: Builder, version: string): string {
    Comment(b) + BuildWith + version
  }

  /** Recovers the version from a header: the text after `COMMENT` and the
      build notice on the first of exactly two lines. */
  function HeaderVersion(b: Builder, header: string): Option<string> {
    var lines := Split(header, '\n');
    var lead := Comment(b) + BuildWith;
    if |lines| == 2 && |lead| <= |lines[0]| && lines[0][..|lead|] == lead
       && lines[1] == Comment(b) + Tagline
    then Some(lines[0][|lead|..])
    else None
  }

  /** Two newline-free lines joined by a newline split back into the two lines. */
  lemma {:induction false} TwoLines(a: string, b: string)
    requires '\n' !in a && '\n' !in b
    ensures Split(a + "\n" + b, '\n') == [a, b]
  {
    assert a + "\n" + b == a + ['\n'] + b;
    SplitAround(a, '\n', b);
    SplitNoSeparator(a, '\n');
    SplitNoSeparator(b, '\n');
  }

  /** For a single-line version the header is exactly two lines, and both
      begin with the builder's comment marker. */
  lemma {:induction false} HeaderLines(b: Builder, version: string)
    requires '\n' !in version
    ensures Split(Header(b, version), '\n') == [VersionLine(b, version), Comment(b) + Tagline]
    ensures Split(Header(b, version), '\n')[0][..|Comment(b)|] == Comment(b)
    ensures Split(Header(b, version), '\n')[1][..|Comment(b)|] == Comment(b)
  {
    var first := VersionLine(b, version);
    var second := Comment(b) + Tagline;
    HeaderLinesSingle(b, version);
    assert Header(b, version) == first + "\n" + second;
    TwoLines(first, second);
  }

  /** Neither the comment marker nor either header line holds a newline of its own. */
  lemma {:induction false} HeaderLinesSingle(b: Builder, version: string)
    requires '\n' !in version
    ensures '\n' !in Comment(b)
    ensures '\n' !in VersionLine(b, version) && '\n' !in Comment(b) + Tagline
  {
    assert '\n' !in BuildWith && '\n' !in Tagline;
  }

  /** The header records its version: reading it back gives the version it was
      built with, so two different versions never share a header. */
  lemma {:induction false} HeaderVersionRoundTrip(b: Builder, version: string)
    requires '\n' !in version
    ensures HeaderVersion(b, Header(b, version)) == Some(version)
  {
    HeaderLines(b, version);
    var lead := Comment(b) + BuildWith;
    assert VersionLine(b, version) == lead + version;
    assert (lead + version)[..|lead|] == lead;
    assert (lead + version)[|lead|..] == version;
  }
}
