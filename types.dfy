/** The data shapes of src/lib/types.ts, plus the preprocessor's inputs. */
module Types {

  datatype Option<T> = None | Some(value: T)

  /** `'1:1' | '1:N' | 'N:1' | 'N:M' | 'unmatched'` */
  datatype AlignmentType = OneToOne | OneToMany | ManyToOne | ManyToMany | Unmatched

  /** A confidence score as `parseFloat` produces it: a decimal value, or NaN. */
  datatype Score = Finite(value: real) | NaN

  /** One line alignment between source-document lines and target-document lines. */
  datatype Alignment = Alignment(srcLines: seq<nat>, tgtLines: seq<nat>, score: Score, kind: AlignmentType)

  /** `avgScore` is kept exact; the source's rounding to three decimals is not modelled. */
  datatype CorrespondenceStats = CorrespondenceStats(
    totalAlignments: nat,
    alignedCount: nat,
    avgScore: real,
    types: map<AlignmentType, nat>)

  /** A compared pair of classification codes. */
  datatype Correspondence = Correspondence(
    id: string,
    sourceCode: string,
    targetCode: string,
    sourceText: seq<string>,
    targetText: seq<string>,
    alignments: seq<Alignment>,
    stats: CorrespondenceStats)

  /** `'match' | 'source-only' | 'target-only'` */
  datatype SegmentType = Match | SourceOnly | TargetOnly

  datatype DiffSegment = DiffSegment(text: string, kind: SegmentType)

  datatype DiffResult = DiffResult(source: seq<DiffSegment>, target: seq<DiffSegment>)
}
