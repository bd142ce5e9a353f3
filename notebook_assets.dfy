/** The file naming of the bundled notebook templates (`sciwyrm.assets.templates.notebook`). */
module NotebookAssets {

  /** The name of the file that holds version `version` of the bundled template `name`. */
  function BundledFileName(name: string, version: string): (r: string)
    ensures |r| == |name| + |version| + 8
    ensures r[..|name|] == name && r[|r| - 6..] == ".ipynb"
  {
    name + "_v" + version + ".ipynb"
  }
}
