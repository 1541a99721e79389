/** pkg/backup/options.go: the options of a backup, built step by step,
    and the options of a restore. */
module Options {

  datatype BackupOptions = BackupOptions(outputPath: string, compressionLevel: int)

  /** The restore options engine.go reads: the fields options.go declares
      together with those the restore pipeline uses beyond them. A nil map
      is the empty map. */
  datatype RestoreOptions = RestoreOptions(
    containerName: string,
    start: bool,
    networkMap: map<string, string>,
    parentMap: map<string, string>,
    dropHostIPs: bool,
    reassignIPs: bool,
    autoRelaxIPs: bool,
    fallbackBridge: bool,
    waitHealthy: bool,
    waitTimeoutSeconds: int,
    replaceExisting: bool,
    dropDevices: bool,
    dropCaps: bool,
    dropSeccomp: bool,
    dropAppArmor: bool,
    bindRestoreRoot: string,
    forceBindIP: string,
    bindInterface: string)

  /** BackupOptionsBuilder. The archive package's default compression level
      is not part of this model; the builder is given it. */
  class BackupOptionsBuilder {
    var options: BackupOptions

    /** NewBackupOptionsBuilder: no output path yet, the default level. */
    constructor (defaultCompressionLevel: int)
      ensures options == BackupOptions("", defaultCompressionLevel)
    {
      options := BackupOptions("", defaultCompressionLevel);
    }

    /** Sets the output path and nothing else; returns the same builder. */
    method WithOutput(path: string) returns (b: BackupOptionsBuilder)
      modifies this
      ensures b == this
      ensures options == old(options).(outputPath := path)
    {
      options := options.(outputPath := path);
      b := this;
    }

    /** Sets the level only when it is positive; returns the same builder. */
    method WithCompression(level: int) returns (b: BackupOptionsBuilder)
      modifies this
      ensures b == this
      ensures level > 0 ==> options == old(options).(compressionLevel := level)
      ensures level <= 0 ==> options == old(options)
    {
      if level > 0 {
        options := options.(compressionLevel := level);
      }
      b := this;
    }

    /** The options built so far; the builder is left as it is. */
    method Build() returns (o: BackupOptions)
      ensures o == options
    {
      o := options;
    }
  }

  /** The options a compose backup gives each service's container backup:
      the service's archive path and, since level 0 is ignored, the default
      level. */
  method ServiceBackupOptions(defaultCompressionLevel: int, outTar: string) returns (o: BackupOptions)
    ensures o.outputPath == outTar && o.compressionLevel == defaultCompressionLevel
  {
    var builder := new BackupOptionsBuilder(defaultCompressionLevel);
    var b := builder.WithOutput(outTar);
    b := b.WithCompression(0);
    o := b.Build();
  }
}
