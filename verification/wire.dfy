/** What crosses the bridge between the front end and the back end. */
module Wire {
  import opened Wrappers

  /** One `conversion-progress` event. The back end builds it as a Rust
      struct and the front end reads it as a TypeScript interface; `status`
      travels as a plain string, and an absent `output_path` or `error` is
      `None`. `progress` is a `u32`, so it is never negative. */
  datatype ConversionProgress = ConversionProgress(
    filePath: string,
    outputPath: Option<string>,
    progress: nat,
    status: string,
    error: Option<string>)

  /** The arguments the front end passes to the `convert_batch` command. */
  datatype BatchRequest = BatchRequest(files: seq<string>, outputDir: Option<string>)
}
