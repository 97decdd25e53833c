/** A candidate's record as the server returns it (`sbd`, `ho_ten`, `diem_toan`,
    `diem_van`, `diem_nn`, `tong_diem`, `ma_hd`, `ngay_sinh`), each field an
    arbitrary JSON value, and the two ways the views read the total. */
module Students {
  import opened JsValues
  import opened JsNumbers

  datatype Student = Student(
    sbd: JsValue,
    hoTen: JsValue,
    diemToan: JsValue,
    diemVan: JsValue,
    diemNn: JsValue,
    tongDiem: JsValue,
    maHd: JsValue,
    ngaySinh: JsValue)

  /** `students.map(s => parseFloat(s.tong_diem))`. */
  function ParsedTotals(students: seq<Student>): (r: seq<Score>)
    ensures |r| == |students|
    ensures forall i :: 0 <= i < |students| ==> r[i] == ParseFloat(students[i].tongDiem)
  {
    seq(|students|, i requires 0 <= i < |students| => ParseFloat(students[i].tongDiem))
  }

  /** The totals as a comparison `s.tong_diem >= t` sees them: coerced with `Number`. */
  function CoercedTotals(students: seq<Student>): (r: seq<Score>)
    ensures |r| == |students|
    ensures forall i :: 0 <= i < |students| ==> r[i] == ToNumber(students[i].tongDiem)
  {
    seq(|students|, i requires 0 <= i < |students| => ToNumber(students[i].tongDiem))
  }
}
