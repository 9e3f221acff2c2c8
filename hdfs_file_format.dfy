/**
 * The catalogue of HDFS file formats the planner can scan: a fixed table from the
 * Hive input-format class named in a table's metadata to one of four formats, and
 * the total translation of each format to its Thrift counterpart.
 * Java's `null` is `None`; the two exceptions fromJavaClassName can raise are
 * results of their own.
 */
module HdfsFileFormats {

  import opened Wrappers

  /** The formats an HDFS table can be stored in. */
  datatype HdfsFileFormat = RcFile | Text | SequenceFile | Trevni

  /** The format enumeration of the Thrift interface shared with the backend. */
  datatype THdfsFileFormat = ThriftRcFile | ThriftText | ThriftSequenceFile | ThriftTrevni

  /** Hive's input-format class for RCFile tables. */
  const RcFileInputFormat: string := "org.apache.hadoop.hive.ql.io.RCFileInputFormat"
  /** Hive's input-format class for text tables. */
  const TextInputFormat: string := "org.apache.hadoop.mapred.TextInputFormat"
  /** Hive's input-format class for sequence-file tables. */
  const SequenceInputFormat: string := "org.apache.hadoop.mapred.SequenceFileInputFormat"
  /** Hive's input-format class for Trevni tables. */
  const TrevniInputFormat: string := "org.apache.hadoop.hive.ql.io.TrevniInputFormat"

  /** The supported input-format classes and the format each one reads. */
  const ValidFormats: map<string, HdfsFileFormat> :=
    map[RcFileInputFormat := RcFile,
        TextInputFormat := Text,
        SequenceInputFormat := SequenceFile,
        TrevniInputFormat := Trevni]

  /** The input-format class of a format: the key ValidFormats maps to it. */
  function ClassName(f: HdfsFileFormat): (r: string)
    ensures r in ValidFormats && ValidFormats[r] == f
  {
    match f
    case RcFile => RcFileInputFormat
    case Text => TextInputFormat
    case SequenceFile => SequenceInputFormat
    case Trevni => TrevniInputFormat
  }

  /** Does the class name describe a supported input format? A null name does not. */
  function IsHdfsFormatClass(formatClass: Option<string>): (r: bool)
    ensures r <==> formatClass.Some?
                   && formatClass.value in {RcFileInputFormat, TextInputFormat, SequenceInputFormat, TrevniInputFormat}
    ensures r <==> exists f: HdfsFileFormat :: formatClass == Some(ClassName(f))
  {
    if formatClass.Some? && formatClass.value in ValidFormats then
      assert formatClass.value == ClassName(ValidFormats[formatClass.value]);
      true
    else
      false
  }

  /** What fromJavaClassName returns, or the exception it throws. */
  datatype FormatResult =
    | Format(format: HdfsFileFormat)
    | NullPointer
    | IllegalArgument(className: string)

  /**
   * The format an input-format class reads: a null name fails its precondition check,
   * and a name outside the table is rejected with the name as the message.
   */
  function FromJavaClassName(className: Option<string>): (r: FormatResult)
    ensures r == NullPointer <==> className.None?
    ensures r.Format? <==> IsHdfsFormatClass(className)
    ensures r.Format? ==> ClassName(r.format) == className.value
    ensures r.IllegalArgument? ==> r.className == className.value
  {
    if className.None? then NullPointer
    else if IsHdfsFormatClass(className) then
      var f := ValidFormats[className.value];
      assert className.value == ClassName(f);
      Format(f)
    else IllegalArgument(className.value)
  }

  /** The Thrift value of a format: every format has one. */
  function ToThrift(f: HdfsFileFormat): (r: THdfsFileFormat)
  {
    match f
    case RcFile => ThriftRcFile
    case Text => ThriftText
    case SequenceFile => ThriftSequenceFile
    case Trevni => ThriftTrevni
  }

  /** Looking up the class name of any format gives that format back. */
  lemma FromClassNameRoundTrip(f: HdfsFileFormat)
    ensures FromJavaClassName(Some(ClassName(f))) == Format(f)
  {
  }

  /** A supported class name is the class name of the format it reads. */
  lemma ClassNameRoundTrip(className: string)
    requires IsHdfsFormatClass(Some(className))
    ensures FromJavaClassName(Some(className)).Format?
    ensures ClassName(FromJavaClassName(Some(className)).format) == className
  {
  }

  /** The table is a bijection between its four class names and the four formats. */
  lemma ValidFormatsIsBijection()
    ensures |ValidFormats| == 4
    ensures ValidFormats.Values == {RcFile, Text, SequenceFile, Trevni}
    ensures forall k1, k2 | k1 in ValidFormats && k2 in ValidFormats :: ValidFormats[k1] == ValidFormats[k2] ==> k1 == k2
  {
    assert ValidFormats.Keys == {RcFileInputFormat, TextInputFormat, SequenceInputFormat, TrevniInputFormat};
  }

  /** Distinct formats have distinct Thrift values: the translation loses nothing. */
  lemma ToThriftInjective(f: HdfsFileFormat, g: HdfsFileFormat)
    ensures ToThrift(f) == ToThrift(g) <==> f == g
  {
  }
}
