/** The repository carries two copies of the account-aggregation job: the one under
    src/ (eight counters, SMS and Excel report) and the older one under run/ (four
    counters, SMS only). */
module Variants {
  datatype Variant = Src | Run

  /** Which behaviour a member follows where the job's code has a defect: the code
      as written, or the evidently intended correction. */
  datatype Edition = AsWritten | Corrected
}
