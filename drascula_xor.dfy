/** The Drascula data file tool (drascula-xor/xor.c): every file named on the command
    line is read byte by byte and written, each byte xor-ed with 0xFF, to a file of the
    same name with ".xored" appended. A file that cannot be opened, or whose output
    cannot be created, is skipped. The file system is a map from file names to contents,
    and the names the system lets the tool create form a fixed set. */
module DrasculaXor {

  /** The suffix the output file name gets. */
  const Suffix: string := ".xored"

  /** One byte as written back: `c ^ 0xFF`. */
  function Invert(b: bv8): (r: bv8)
    ensures r as int == 255 - b as int
  {
    b ^ 0xFF
  }

  /** The contents of the output file for a given input file. */
  function Complement(data: seq<bv8>): (out: seq<bv8>)
    ensures |out| == |data|
    ensures forall i :: 0 <= i < |data| ==> out[i] as int == 255 - data[i] as int
  {
    seq(|data|, i requires 0 <= i < |data| => Invert(data[i]))
  }

  /** Applying the tool to its own output gives the original contents back. */
  lemma ComplementInvolution(data: seq<bv8>)
    ensures Complement(Complement(data)) == data
  {
    var twice := Complement(Complement(data));
    forall i | 0 <= i < |data|
      ensures twice[i] == data[i]
    {
      assert twice[i] as int == data[i] as int;
    }
  }

  /** Distinct inputs give distinct outputs. */
  lemma ComplementInjective(a: seq<bv8>, b: seq<bv8>)
    ensures Complement(a) == Complement(b) <==> a == b
  {
    if Complement(a) == Complement(b) {
      ComplementInvolution(a);
      ComplementInvolution(b);
    }
  }

  /** The tool streams: the output of a concatenation is the concatenation of the outputs. */
  lemma ComplementAppend(a: seq<bv8>, b: seq<bv8>)
    ensures Complement(a + b) == Complement(a) + Complement(b)
  {
  }

  /** The copy loop of xor.c: `fgetc` until end of file, `fputc(c ^ 0xFF)` for each byte. */
  method XorStream(data: seq<bv8>) returns (out: seq<bv8>)
    ensures out == Complement(data)
  {
    out := [];
    var i := 0;
    while i < |data|
      invariant 0 <= i <= |data|
      invariant out == Complement(data[..i])
    {
      ComplementAppend(data[..i], [data[i]]);
      assert data[..i + 1] == data[..i] + [data[i]];
      out := out + [data[i] ^ 0xFF];
      i := i + 1;
    }
    assert data[..i] == data;
  }

  /** The name `sprintf(buffer, "%s.xored", name)` builds. */
  function OutputName(name: string): (r: string)
    ensures |r| == |name| + |Suffix|
    ensures r[..|name|] == name && r[|name|..] == Suffix
  {
    name + Suffix
  }

  /** An output never overwrites its own input, and distinct inputs have distinct outputs. */
  lemma OutputNameDistinct(a: string, b: string)
    ensures OutputName(a) != a
    ensures OutputName(a) == OutputName(b) <==> a == b
  {
    if OutputName(a) == OutputName(b) {
      assert a == OutputName(a)[..|a|] == OutputName(b)[..|b|] == b;
    }
  }

  /** The file system and the "...wrote file" messages printed so far. */
  datatype Outcome = Outcome(files: map<string, seq<bv8>>, messages: seq<string>)

  /** The input opens and its output can be created, so the file is processed. */
  predicate Processed(files: map<string, seq<bv8>>, creatable: set<string>, name: string)
    ensures Processed(files, creatable, name) ==> name in files && OutputName(name) != name
  {
    name in files && OutputName(name) in creatable
  }

  /** One pass of the loop over the command line arguments. */
  function Step(o: Outcome, creatable: set<string>, name: string): (r: Outcome)
    ensures Processed(o.files, creatable, name) ==>
              && OutputName(name) in r.files
              && r.files[OutputName(name)] == Complement(o.files[name])
              && r.messages == o.messages + [OutputName(name)]
    ensures !Processed(o.files, creatable, name) ==> r == o
    ensures r.files.Keys == o.files.Keys + (if Processed(o.files, creatable, name) then {OutputName(name)} else {})
    ensures forall k :: k in o.files && k != OutputName(name) ==> r.files[k] == o.files[k]
  {
    if Processed(o.files, creatable, name) then
      var out := OutputName(name);
      Outcome(o.files[out := Complement(o.files[name])], o.messages + [out])
    else o
  }

  /** The outcome of running the tool on the arguments in order, starting from a file
      system and no messages. */
  function XorAll(files: map<string, seq<bv8>>, creatable: set<string>, args: seq<string>): (r: Outcome)
    ensures forall k :: k in r.files && k !in files ==> exists a :: a in args && k == OutputName(a)
  {
    if args == [] then Outcome(files, [])
    else Step(XorAll(files, creatable, args[..|args| - 1]), creatable, args[|args| - 1])
  }

  /** At most one message per argument, and only output names of arguments appear. */
  lemma {:induction false} XorAllMessages(files: map<string, seq<bv8>>, creatable: set<string>, args: seq<string>)
    ensures |XorAll(files, creatable, args).messages| <= |args|
    ensures forall m :: m in XorAll(files, creatable, args).messages ==> m in creatable && exists a :: a in args && m == OutputName(a)
  {
    if args != [] {
      var init, last := args[..|args| - 1], args[|args| - 1];
      XorAllMessages(files, creatable, init);
      var before := XorAll(files, creatable, init);
      forall m | m in XorAll(files, creatable, args).messages
        ensures m in creatable && exists a :: a in args && m == OutputName(a)
      {
        if m in before.messages {
          var a :| a in init && m == OutputName(a);
          assert a in args;
        } else {
          assert last in args;
        }
      }
    }
  }

  /** No file disappears: the tool only adds and overwrites output files. */
  lemma {:induction false} XorAllKeepsFiles(files: map<string, seq<bv8>>, creatable: set<string>, args: seq<string>)
    ensures files.Keys <= XorAll(files, creatable, args).files.Keys
  {
    if args != [] {
      XorAllKeepsFiles(files, creatable, args[..|args| - 1]);
    }
  }

  /** A name that is no argument's output neither appears nor disappears, and keeps its
      contents. */
  lemma {:induction false} XorAllFrame(files: map<string, seq<bv8>>, creatable: set<string>, args: seq<string>, k: string)
    requires forall a :: a in args ==> k != OutputName(a)
    ensures k in XorAll(files, creatable, args).files <==> k in files
    ensures k in files ==> XorAll(files, creatable, args).files[k] == files[k]
  {
    if args != [] {
      var init := args[..|args| - 1];
      assert forall a :: a in init ==> a in args;
      XorAllFrame(files, creatable, init, k);
    }
  }

  /** Running the tool on a file and then on its output writes the original contents to
      the file "name.xored.xored". */
  lemma XorTwiceRestores(files: map<string, seq<bv8>>, creatable: set<string>, name: string)
    requires name in files
    requires OutputName(name) in creatable && OutputName(OutputName(name)) in creatable
    ensures var o := XorAll(files, creatable, [name, OutputName(name)]);
              && OutputName(OutputName(name)) in o.files
              && o.files[OutputName(OutputName(name))] == files[name]
              && o.messages == [OutputName(name), OutputName(OutputName(name))]
  {
    var out := OutputName(name);
    var args := [name, out];
    assert args[..1] == [name];
    var first := XorAll(files, creatable, [name]);
    assert first == Step(XorAll(files, creatable, []), creatable, name) by {
      assert [name][..0] == [];
    }
    assert first.files[out] == Complement(files[name]);
    assert XorAll(files, creatable, args) == Step(first, creatable, out);
    ComplementInvolution(files[name]);
  }

  /** The main loop of xor.c over the command line arguments (argv[1..]). A file the
      system does not open or whose output cannot be created is skipped; otherwise the
      output is written and its name printed. */
  method XorFiles(files: map<string, seq<bv8>>, creatable: set<string>, args: seq<string>)
    returns (fs: map<string, seq<bv8>>, messages: seq<string>)
    ensures Outcome(fs, messages) == XorAll(files, creatable, args)
  {
    fs, messages := files, [];
    var i := 0;
    while i < |args|
      invariant 0 <= i <= |args|
      invariant Outcome(fs, messages) == XorAll(files, creatable, args[..i])
    {
      assert args[..i + 1][..i] == args[..i];
      var name := args[i];
      if name !in fs {
        i := i + 1;
        continue;
      }
      var buffer := name + Suffix;
      if buffer !in creatable {
        i := i + 1;
        continue;
      }
      var contents := XorStream(fs[name]);
      fs := fs[buffer := contents];
      messages := messages + [buffer];
      i := i + 1;
    }
    assert args[..i] == args;
  }
}
