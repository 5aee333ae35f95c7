/**
 * An asset as the collection sees it. The asset classes themselves are not
 * part of this model: an asset is the record of what the collection reads
 * from it, and its own compile(process) is taken to be deterministic, so it
 * is given by the two texts it yields.
 */
module AssetRecords {
  import opened Wrappers
  import PhpStrings

  datatype Asset = Asset(
    weight: int,
    sourceFile: Option<string>,
    content: string,
    lastModified: Option<int>,
    plainOutput: string,
    processedOutput: string)
  {
    /** `$asset->compile($process)` */
    function Compile(process: bool): string {
      if process then processedOutput else plainOutput
    }

    /** A file-backed asset: `$asset->source_file()` is truthy; an inline block has none. */
    predicate IsFileBacked() {
      sourceFile.Some? && PhpStrings.IsTruthy(sourceFile.value)
    }

    /** What the fingerprint reads from the asset: its source file, or its content for a block. */
    function HashSource(): (r: string)
      ensures (Some(r) == sourceFile && PhpStrings.IsTruthy(r)) || (r == content && !IsFileBacked())
    {
      if IsFileBacked() then sourceFile.value else content
    }
  }
}
