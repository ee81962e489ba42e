/**
 * opengl_go_tutorial/drawer.go: `NewDrawer` chooses a drawer by the file's
 * extension, as `path/filepath.Ext` computes it on a system whose path
 * separator is '/'.
 */
module Drawer {
  import opened Wrappers

  /** The drawer for still images; it remembers the path it was made for. */
  datatype Drawer = ImgDrawer(file: string)

  /**
   * `filepath.Ext`: the suffix that starts at the last '.' of the final path
   * element, or "" when that element has no '.'.  The result is the unique
   * suffix with these properties.
   */
  function Ext(path: string): (ext: string)
    ensures |ext| <= |path| && ext == path[|path| - |ext|..]
    ensures ext != "" ==> ext[0] == '.' && '.' !in ext[1..] && '/' !in ext
    ensures ext == "" ==> forall j :: 0 <= j < |path| && '/' !in path[j..] ==> path[j] != '.'
  {
    if path == "" then ""
    else
      var last := path[|path| - 1];
      if last == '/' then ""
      else if last == '.' then "."
      else
        var ext := Ext(path[..|path| - 1]);
        if ext == "" then "" else ext + [last]
  }

  const LoadError := "cannot load file with extension: "

  /**
   * `NewDrawer`: ".png" and ".jpeg" (compared exactly) give an image drawer
   * for the unchanged path; every other extension, ".ivf" and "" included,
   * gives the error naming it and no drawer.
   */
  function NewDrawer(file: string): (r: Result<Drawer, string>)
    ensures r.Ok? <==> Ext(file) == ".png" || Ext(file) == ".jpeg"
    ensures r.Ok? ==> r.value.file == file
    ensures r.Err? ==> r.error == LoadError + Ext(file)
  {
    var ext := Ext(file);
    if ext == ".png" || ext == ".jpeg" then Ok(ImgDrawer(file))
    else if ext == ".ivf" then Err(LoadError + ext)
    else Err(LoadError + ext)
  }

  /**
   * A '.' with no later '.' and no '/' from it on marks the extension: it is
   * exactly the suffix from that '.'.
   */
  lemma ExtIsSuffixFromLastDot(path: string, i: nat)
    requires i < |path| && path[i] == '.'
    requires '.' !in path[i + 1..] && '/' !in path[i..]
    ensures Ext(path) == path[i..]
  {
  }

  /** With no '.' in the final path element the extension is empty, whatever the directories hold. */
  lemma {:induction false} ExtOfLastElementOnly(dir: string, name: string)
    requires '/' !in name && '.' !in name
    ensures Ext(dir + "/" + name) == ""
  {
    var path := dir + "/" + name;
    if name != "" {
      var init := name[..|name| - 1];
      assert path[..|path| - 1] == dir + "/" + init;
      assert path[|path| - 1] == name[|name| - 1];
      ExtOfLastElementOnly(dir, init);
    }
  }

  /** Matching is exact: the upper-case spelling is refused. */
  lemma NewDrawerRefusesUpperCase()
    ensures NewDrawer("a.PNG") == Err(LoadError + ".PNG")
  {
    ExtIsSuffixFromLastDot("a.PNG", 1);
  }

  /** Matching is exact: the short ".jpg" spelling is refused. */
  lemma NewDrawerRefusesJpg()
    ensures NewDrawer("a.jpg") == Err(LoadError + ".jpg")
  {
    ExtIsSuffixFromLastDot("a.jpg", 1);
  }

  /** A video file gets no drawer; the error names ".ivf". */
  lemma NewDrawerRefusesIvf()
    ensures NewDrawer("v.ivf") == Err(LoadError + ".ivf")
  {
    ExtIsSuffixFromLastDot("v.ivf", 1);
  }

  /** Only the last '.' counts: "b.tar.jpeg" is an image, "png.d/x" has no extension. */
  lemma NewDrawerUsesLastDot()
    ensures NewDrawer("b.tar.jpeg") == Ok(ImgDrawer("b.tar.jpeg"))
    ensures NewDrawer("png.d/x") == Err(LoadError)
  {
    ExtIsSuffixFromLastDot("b.tar.jpeg", 5);
    ExtOfLastElementOnly("png.d", "x");
    assert "png.d" + "/" + "x" == "png.d/x";
    assert LoadError + "" == LoadError;
  }
}
