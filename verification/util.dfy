/** `rem_file_ext` as util.py repeats it, defined here by scanning from the
    right so that its agreement with the str.py version is a theorem. */
module Util {
  import Strs

  /** The text before the last '.', if there is one. */
  function BeforeLastDot(filename: string): (r: string)
    requires '.' in filename
    ensures |r| < |filename| && r == filename[..|r|]
    ensures filename[|r|] == '.' && '.' !in filename[|r| + 1..]
  {
    var n := |filename|;
    if filename[n - 1] == '.' then
      assert filename[n..] == [];
      filename[..n - 1]
    else
      var init := filename[..n - 1];
      assert filename == init + [filename[n - 1]];
      var r := BeforeLastDot(init);
      assert filename[|r| + 1..] == init[|r| + 1..] + [filename[n - 1]];
      r
  }

  /** `rem_file_ext` of util.py: the name without its extension. */
  function RemFileExt(filename: string): (r: string)
    ensures |r| <= |filename| && r == filename[..|r|]
    ensures |r| < |filename| <==> '.' in filename
    ensures '.' !in filename ==> r == filename
    ensures '.' in filename ==> filename[|r|] == '.' && '.' !in filename[|r| + 1..]
  {
    if '.' in filename then BeforeLastDot(filename) else filename
  }

  /** The util.py and str.py copies of `rem_file_ext` agree on every name. */
  lemma RemFileExtAgrees(filename: string)
    ensures RemFileExt(filename) == Strs.RemFileExt(filename)
  {
    var r := Strs.RFind(filename, '.');
  }

  /** Examples from the unit tests: 'foo.bar' loses its extension,
      'foobar.' loses its dot, and '.foobar' becomes empty. */
  lemma RemFileExtExamples()
    ensures RemFileExt("foobar") == "foobar"
    ensures RemFileExt("foo.bar") == "foo"
    ensures RemFileExt("foobar.") == "foobar"
    ensures RemFileExt(".foobar") == ""
  {
    assert "foo.bar"[3] == '.';
    assert "foobar."[6] == '.';
    assert ".foobar"[0] == '.';
  }
}
